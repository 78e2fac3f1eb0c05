/** Order-preserving list operations: `Array.prototype.filter`, and keeping first occurrences as a
    `Set` built from an array does. */
module Seqs {
  import opened Common

  /** `a` is `b` with some elements left out, the rest in the same order. */
  predicate IsSubsequence<T(==)>(a: seq<T>, b: seq<T>)
    decreases |b|
  {
    if a == [] then true
    else if b == [] then false
    else if a[0] == b[0] then IsSubsequence(a[1..], b[1..])
    else IsSubsequence(a, b[1..])
  }

  /** `s.filter(p)`: the elements of `s` that satisfy `p`, in their order in `s`. */
  function Filter<T(==)>(s: seq<T>, p: T -> bool): (r: seq<T>)
    ensures |r| <= |s|
    ensures forall i :: 0 <= i < |r| ==> p(r[i])
    ensures forall i :: 0 <= i < |r| ==> r[i] in s
  {
    if s == [] then [] else (if p(s[0]) then [s[0]] else []) + Filter(s[1..], p)
  }

  /** An element is kept exactly when it is in `s` and satisfies `p`. */
  lemma {:induction false} FilterMembers<T>(s: seq<T>, p: T -> bool, x: T)
    ensures x in Filter(s, p) <==> x in s && p(x)
  {
    if s != [] {
      FilterMembers(s[1..], p, x);
      assert s == [s[0]] + s[1..];
    }
  }

  /** Filtering a list with one more element at the end keeps what it kept and then that element
      when it satisfies `p`. */
  lemma {:induction false} FilterSnoc<T>(s: seq<T>, x: T, p: T -> bool)
    ensures Filter(s + [x], p) == Filter(s, p) + (if p(x) then [x] else [])
  {
    if s == [] {
      assert [] + [x] == [x];
      assert [x][1..] == [];
    } else {
      FilterSnoc(s[1..], x, p);
      assert (s + [x])[1..] == s[1..] + [x];
      AppendAssoc(if p(s[0]) then [s[0]] else [], Filter(s[1..], p), if p(x) then [x] else []);
    }
  }

  /** What the filter keeps is a subsequence of `s`. */
  lemma {:induction false} FilterIsSubsequence<T>(s: seq<T>, p: T -> bool)
    ensures IsSubsequence(Filter(s, p), s)
  {
    if s != [] {
      var r := Filter(s, p);
      var rest := Filter(s[1..], p);
      FilterIsSubsequence(s[1..], p);
      if p(s[0]) {
        assert r == [s[0]] + rest;
        assert r[0] == s[0] && r[1..] == rest;
      } else {
        assert r == rest;
        SubsequenceSkip(r, s);
      }
    }
  }

  /** A subsequence of the tail is a subsequence of the whole list. */
  lemma {:induction false} SubsequenceSkip<T>(a: seq<T>, b: seq<T>)
    requires b != [] && IsSubsequence(a, b[1..])
    ensures IsSubsequence(a, b)
    decreases |b|, 0
  {
    if a != [] && a[0] == b[0] {
      SubsequenceTail(a, b[1..]);
    }
  }

  /** Dropping the first element of a subsequence keeps a subsequence. */
  lemma {:induction false} SubsequenceTail<T>(a: seq<T>, b: seq<T>)
    requires a != [] && IsSubsequence(a, b)
    ensures IsSubsequence(a[1..], b)
    decreases |b|, 1
  {
    if a[0] != b[0] {
      SubsequenceTail(a, b[1..]);
      SubsequenceSkip(a[1..], b);
    } else if a[1..] != [] {
      SubsequenceSkip(a[1..], b);
    }
  }

  /** A list whose every element satisfies `p` is kept whole. */
  lemma {:induction false} FilterAll<T>(s: seq<T>, p: T -> bool)
    requires forall i :: 0 <= i < |s| ==> p(s[i])
    ensures Filter(s, p) == s
  {
    if s != [] {
      assert p(s[0]);
      FilterAll(s[1..], p);
    }
  }

  /** A list from `i`, cut around the element at `j`. */
  lemma SliceSplit<T>(s: seq<T>, i: nat, j: nat)
    requires i <= j < |s|
    ensures s[i..] == s[i..j] + [s[j]] + s[j + 1..]
  {
  }

  /** The rest of a list from `i`, cut around the element at `j`, followed by more. */
  lemma SliceAround<T>(s: seq<T>, i: nat, j: nat, rest: seq<T>)
    requires i <= j < |s|
    ensures s[i..] + rest == s[i..j] + ([s[j]] + (s[j + 1..] + rest))
  {
    SliceSplit(s, i, j);
  }

  /** Mapping then filtering a non-empty list: the first element's image, if kept, comes first. */
  lemma FilterMapCons<A, B>(s: seq<A>, f: A -> B, p: B -> bool)
    requires s != []
    ensures Filter(MapSeq(s, f), p)
      == (if p(f(s[0])) then [f(s[0])] else []) + Filter(MapSeq(s[1..], f), p)
  {
    var m := MapSeq(s, f);
    assert m[0] == f(s[0]);
    assert m[1..] == MapSeq(s[1..], f);
  }

  /** Every list is a subsequence of itself. */
  lemma {:induction false} SubsequenceRefl<T>(s: seq<T>)
    ensures IsSubsequence(s, s)
  {
    if s != [] {
      SubsequenceRefl(s[1..]);
    }
  }

  /** A list in which no element occurs twice. */
  predicate NoDuplicates<T(==)>(s: seq<T>) {
    forall i, j :: 0 <= i < j < |s| ==> s[i] != s[j]
  }

  /** `[...new Set(s)]`: each element at its first occurrence, later repeats dropped. */
  function Dedup<T(==,!new)>(s: seq<T>): (r: seq<T>)
    ensures NoDuplicates(r)
    ensures forall x :: x in r <==> x in s
  {
    var r := DedupAfter([], s);
    assert [] + r == r;
    r
  }

  /** The elements of `s` not in `seen` and not repeated earlier in `s`, in order. */
  function DedupAfter<T(==,!new)>(seen: seq<T>, s: seq<T>): (r: seq<T>)
    requires NoDuplicates(seen)
    ensures NoDuplicates(seen + r)
    ensures forall x :: x in r <==> x in s && x !in seen
    decreases |s|
  {
    if s == [] then []
    else if s[0] in seen then DedupAfter(seen, s[1..])
    else
      var rest := DedupAfter(seen + [s[0]], s[1..]);
      assert seen + [s[0]] + rest == seen + ([s[0]] + rest);
      [s[0]] + rest
  }

  /** Deduplication keeps the order of first occurrences: it is a subsequence of the list. */
  lemma {:induction false} DedupIsSubsequence<T(!new)>(seen: seq<T>, s: seq<T>)
    requires NoDuplicates(seen)
    ensures IsSubsequence(DedupAfter(seen, s), s)
    decreases |s|
  {
    if s != [] {
      if s[0] in seen {
        DedupIsSubsequence(seen, s[1..]);
        SubsequenceSkip(DedupAfter(seen, s), s);
      } else {
        DedupIsSubsequence(seen + [s[0]], s[1..]);
      }
    }
  }

  /** A list without repeats is its own deduplication. */
  lemma {:induction false} DedupNoDuplicates<T(!new)>(seen: seq<T>, s: seq<T>)
    requires NoDuplicates(seen) && NoDuplicates(seen + s)
    ensures DedupAfter(seen, s) == s
    decreases |s|
  {
    if s != [] {
      assert s[0] == (seen + s)[|seen|];
      assert s[0] !in seen by {
        forall i | 0 <= i < |seen| ensures seen[i] != s[0] {
          assert seen[i] == (seen + s)[i];
        }
      }
      assert seen + [s[0]] + s[1..] == seen + s;
      DedupNoDuplicates(seen + [s[0]], s[1..]);
    }
  }

  /** A value given twice is kept once. */
  lemma DedupTwice<T(!new)>(x: T)
    ensures Dedup([x, x]) == [x]
  {
    assert [x, x][1..] == [x] && [x][1..] == [];
    assert [] + [x] == [x];
    assert DedupAfter([x], [x]) == [];
  }

  /** The index of the first occurrence of `x` in `s`, or `|s|` when `x` does not occur. */
  function FirstIndex<T(==)>(s: seq<T>, x: T): (i: nat)
    ensures i <= |s|
    ensures i < |s| <==> x in s
    ensures i < |s| ==> s[i] == x
    ensures forall k :: 0 <= k < i ==> s[k] != x
  {
    if s == [] then 0
    else if s[0] == x then 0
    else 1 + FirstIndex(s[1..], x)
  }

  /** Every element of `r` occurs in `s`, and they come in the order of their first
      occurrences in `s`. */
  predicate InFirstOccurrenceOrder<T(==)>(r: seq<T>, s: seq<T>) {
    (forall x :: x in r ==> x in s) &&
    forall i, j :: 0 <= i < j < |r| ==> FirstIndex(s, r[i]) < FirstIndex(s, r[j])
  }

  /** A list in first-occurrence order in the tail of `s`, without the head of `s`, is also in
      first-occurrence order in `s`: every first occurrence moves one place. */
  lemma OrderPastHead<T>(r: seq<T>, s: seq<T>)
    requires s != [] && s[0] !in r && InFirstOccurrenceOrder(r, s[1..])
    ensures InFirstOccurrenceOrder(r, s)
  {
    forall x | x in r
      ensures x in s && FirstIndex(s, x) == 1 + FirstIndex(s[1..], x)
    {
      assert x in s[1..];
    }
    forall i, j | 0 <= i < j < |r|
      ensures FirstIndex(s, r[i]) < FirstIndex(s, r[j])
    {
      assert r[i] in r && r[j] in r;
    }
  }

  /** The head of `s` in front of such a list keeps the order: it occurs first of all. */
  lemma OrderWithHead<T>(r: seq<T>, s: seq<T>)
    requires s != [] && s[0] !in r && InFirstOccurrenceOrder(r, s[1..])
    ensures InFirstOccurrenceOrder([s[0]] + r, s)
  {
    OrderPastHead(r, s);
    var q := [s[0]] + r;
    forall i, j | 0 <= i < j < |q|
      ensures FirstIndex(s, q[i]) < FirstIndex(s, q[j])
    {
      assert q[j] == r[j - 1] && r[j - 1] in r;
      if i > 0 {
        assert q[i] == r[i - 1];
      }
    }
  }

  /** What `DedupAfter` keeps comes in the order of first occurrences in `s`. */
  lemma {:induction false} DedupAfterOrder<T(!new)>(seen: seq<T>, s: seq<T>)
    requires NoDuplicates(seen)
    ensures InFirstOccurrenceOrder(DedupAfter(seen, s), s)
    decreases |s|
  {
    if s != [] {
      if s[0] in seen {
        var rest := DedupAfter(seen, s[1..]);
        DedupAfterOrder(seen, s[1..]);
        OrderPastHead(rest, s);
      } else {
        var rest := DedupAfter(seen + [s[0]], s[1..]);
        DedupAfterOrder(seen + [s[0]], s[1..]);
        OrderWithHead(rest, s);
      }
    }
  }

  /** `[...new Set(s)]` lists each element once, in the order of first occurrences in `s`. */
  lemma DedupOrder<T(!new)>(s: seq<T>)
    ensures InFirstOccurrenceOrder(Dedup(s), s)
  {
    DedupAfterOrder([], s);
  }

  /** An element added at the end is kept exactly when it was neither seen nor already in `s`. */
  lemma {:induction false} DedupAfterSnoc<T(!new)>(seen: seq<T>, s: seq<T>, x: T)
    requires NoDuplicates(seen)
    ensures DedupAfter(seen, s + [x])
      == DedupAfter(seen, s) + (if x in s || x in seen then [] else [x])
    decreases |s|
  {
    if s == [] {
      assert s + [x] == [x] && [x][1..] == [];
    } else {
      assert (s + [x])[0] == s[0] && (s + [x])[1..] == s[1..] + [x];
      assert x in s <==> x == s[0] || x in s[1..];
      if s[0] in seen {
        DedupAfterSnoc(seen, s[1..], x);
      } else {
        DedupAfterSnoc(seen + [s[0]], s[1..], x);
        var rest := DedupAfter(seen + [s[0]], s[1..]);
        var tail := if x in s || x in seen then [] else [x];
        assert [s[0]] + (rest + tail) == [s[0]] + rest + tail;
      }
    }
  }

  /** Adding `x` at the end of the list adds it to the deduplication exactly when it is new. */
  lemma DedupSnoc<T(!new)>(s: seq<T>, x: T)
    ensures Dedup(s + [x]) == Dedup(s) + (if x in s then [] else [x])
  {
    DedupAfterSnoc([], s, x);
  }

  /** A value repeated after another keeps its first place: `[a, b, a]` gives `[a, b]`. */
  lemma DedupFirstKept<T(!new)>(a: T, b: T)
    requires a != b
    ensures Dedup([a, b, a]) == [a, b]
  {
    var none: seq<T> := [];
    assert Dedup(none) == [] by { assert DedupAfter(none, none) == []; }
    assert none + [a] == [a] && [a] + [b] == [a, b] && [a, b] + [a] == [a, b, a];
    DedupSnoc(none, a);
    DedupSnoc([a], b);
    DedupSnoc([a, b], a);
  }

  /** The present values of a list of options, in order. */
  function Values<T>(s: seq<Option<T>>): (r: seq<T>)
    ensures |r| <= |s|
  {
    if s == [] then []
    else Values(s[..|s| - 1]) + (if s[|s| - 1].Some? then [s[|s| - 1].value] else [])
  }

  /** A value is listed exactly when the list holds it. */
  lemma {:induction false} ValuesMembers<T>(s: seq<Option<T>>, x: T)
    ensures x in Values(s) <==> Some(x) in s
  {
    if s != [] {
      var front := s[..|s| - 1];
      ValuesMembers(front, x);
      assert s == front + [s[|s| - 1]];
    }
  }

  /** Values of consecutive runs are the runs' values one after the other. */
  lemma {:induction false} ValuesAppend<T>(a: seq<Option<T>>, b: seq<Option<T>>)
    ensures Values(a + b) == Values(a) + Values(b)
    decreases |b|
  {
    if b == [] {
      assert a + b == a;
    } else {
      var front := b[..|b| - 1];
      assert (a + b)[..|a + b| - 1] == a + front;
      ValuesAppend(a, front);
    }
  }

  /** Dropping the last element of `r + [x]` gives `r` back. */
  lemma DropLast<T>(r: seq<T>, x: T)
    ensures (r + [x])[..|r + [x]| - 1] == r
  {
  }

  /** Cutting a list at `j` before its last element: the front part is the front of the list
      without its last element, the back part that list's back with the last element added. */
  lemma SplitBeforeLast<T>(s: seq<T>, j: nat)
    requires j < |s|
    ensures s[..j] == s[..|s| - 1][..j]
    ensures s[j..] == s[..|s| - 1][j..] + [s[|s| - 1]]
  {
  }

  /** Two pieces of which one is empty can be appended in either order. */
  lemma AppendEitherOrder<T>(a: seq<T>, x: seq<T>, y: seq<T>)
    requires x == [] || y == []
    ensures a + x + y == a + y + x
  {
  }

  lemma AppendAssoc<T>(a: seq<T>, b: seq<T>, c: seq<T>)
    ensures a + b + c == a + (b + c)
  {
  }

  /** Regrouping `a`, a separator and `b`, followed by `c` and `d`. */
  lemma AppendRegroup<T>(a: seq<T>, sep: seq<T>, b: seq<T>, c: seq<T>, d: seq<T>)
    ensures a + (sep + b) + c + d == a + (sep + (b + c + d))
  {
    AppendAssoc(sep, b, c);
    AppendAssoc(sep, b + c, d);
  }

  lemma AppendFirst<T>(x: seq<T>, f: seq<T>)
    requires f != []
    ensures x + [f[0]] + f[1..] == x + f
  {
  }

  /** `s.map(f)`. */
  function MapSeq<A, B>(s: seq<A>, f: A -> B): (r: seq<B>)
    ensures |r| == |s|
    ensures forall k :: 0 <= k < |s| ==> r[k] == f(s[k])
  {
    seq(|s|, k requires 0 <= k < |s| => f(s[k]))
  }

  /** Mapping one more element appends its image. */
  lemma MapSeqSnoc<A, B>(s: seq<A>, f: A -> B, i: nat)
    requires i < |s|
    ensures MapSeq(s[..i + 1], f) == MapSeq(s[..i], f) + [f(s[i])]
  {
    var longer, shorter := MapSeq(s[..i + 1], f), MapSeq(s[..i], f);
    forall k | 0 <= k < i
      ensures longer[k] == shorter[k]
    {
      assert s[..i + 1][k] == s[..i][k];
    }
  }

  /** A value is in the image exactly when some element maps to it. */
  lemma MapSeqHas<A, B>(s: seq<A>, f: A -> B, y: B)
    ensures y in MapSeq(s, f) <==> exists x :: x in s && f(x) == y
  {
    var r := MapSeq(s, f);
    if y in r {
      var i :| 0 <= i < |r| && r[i] == y;
      assert s[i] in s;
    }
    if x :| x in s && f(x) == y {
      var i :| 0 <= i < |s| && s[i] == x;
      assert r[i] == y;
    }
  }

  /** Mapping a concatenation maps each part. */
  lemma MapSeqAppend<A, B>(a: seq<A>, b: seq<A>, f: A -> B)
    ensures MapSeq(a + b, f) == MapSeq(a, f) + MapSeq(b, f)
  {
    var whole := MapSeq(a + b, f);
    forall k | 0 <= k < |a| + |b|
      ensures whole[k] == (MapSeq(a, f) + MapSeq(b, f))[k]
    {
      if k < |a| {
        assert (a + b)[k] == a[k];
      } else {
        assert (a + b)[k] == b[k - |a|];
      }
    }
  }

  /** A list that agrees with `s` before `j`, holds `x` at `j` and agrees with `s` shifted by one
      after `j` is `s` with `x` inserted at `j`. */
  lemma InsertedAt<T>(placed: seq<T>, s: seq<T>, x: T, j: nat)
    requires j <= |s| && |placed| == |s| + 1 && placed[j] == x
    requires forall k :: 0 <= k < j ==> placed[k] == s[k]
    requires forall k :: j < k <= |s| ==> placed[k] == s[k - 1]
    ensures placed == s[..j] + [x] + s[j..]
  {
  }
}
