/** `sortByUpcoming` (`src/lib/birthday.ts`): a copy of the list, sorted by days to the birthday,
    then by the `MM-DD` text, then by the slug, with ties kept in list order as the stable
    `Array.prototype.sort` keeps them. */
module BirthdaySort {
  import opened Strings
  import opened Sheets
  import opened Seqs

  /** An idol with the days until its next birthday attached (`IdolWithDiff`). */
  datatype IdolWithDiff = IdolWithDiff(idol: Idol, diffDays: int)

  /** `a.localeCompare(b) < 0`. */
  predicate StrLt(a: string, b: string) {
    StrLe(a, b) && a != b
  }

  /** The comparator is negative: `a` sorts strictly before `b`. The record's `birthday_mmdd` and
      `slug` are always present, so the `?? ""` and `?? id` fallbacks never apply. */
  predicate Before(a: IdolWithDiff, b: IdolWithDiff) {
    if a.diffDays != b.diffDays then a.diffDays < b.diffDays
    else if a.idol.birthdayMmdd != b.idol.birthdayMmdd then StrLt(a.idol.birthdayMmdd, b.idol.birthdayMmdd)
    else StrLt(a.idol.slug, b.idol.slug)
  }

  /** What the comparator looks at; records with the same key compare as equal. */
  datatype SortKey = SortKey(diffDays: int, mmdd: string, slug: string)

  function Key(x: IdolWithDiff): SortKey {
    SortKey(x.diffDays, x.idol.birthdayMmdd, x.idol.slug)
  }

  /** Records with equal keys are never ordered by the comparator, and distinct keys always are, one
      way or the other. */
  lemma BeforeIffKeysDiffer(a: IdolWithDiff, b: IdolWithDiff)
    ensures Key(a) == Key(b) ==> !Before(a, b) && !Before(b, a)
    ensures Key(a) != Key(b) ==> Before(a, b) || Before(b, a)
  {
    StrLeTotal(a.idol.birthdayMmdd, b.idol.birthdayMmdd);
    StrLeTotal(a.idol.slug, b.idol.slug);
  }

  /** The comparator is asymmetric. */
  lemma BeforeAsymmetric(a: IdolWithDiff, b: IdolWithDiff)
    requires Before(a, b)
    ensures !Before(b, a)
  {
    if StrLe(b.idol.birthdayMmdd, a.idol.birthdayMmdd) && StrLe(a.idol.birthdayMmdd, b.idol.birthdayMmdd) {
      StrLeAntisymmetric(a.idol.birthdayMmdd, b.idol.birthdayMmdd);
    }
    if StrLe(b.idol.slug, a.idol.slug) && StrLe(a.idol.slug, b.idol.slug) {
      StrLeAntisymmetric(a.idol.slug, b.idol.slug);
    }
  }

  /** "Not after" is transitive: the comparator is a consistent total preorder. */
  lemma NotBeforeTransitive(a: IdolWithDiff, b: IdolWithDiff, c: IdolWithDiff)
    requires !Before(b, a) && !Before(c, b)
    ensures !Before(c, a)
  {
    var am, bm, cm := a.idol.birthdayMmdd, b.idol.birthdayMmdd, c.idol.birthdayMmdd;
    var sa, sb, sc := a.idol.slug, b.idol.slug, c.idol.slug;
    StrLeTotal(am, bm);
    StrLeTotal(bm, cm);
    StrLeTotal(sa, sb);
    StrLeTotal(sb, sc);
    if StrLe(am, bm) && StrLe(bm, cm) {
      StrLeTransitive(am, bm, cm);
    }
    if StrLe(sa, sb) && StrLe(sb, sc) {
      StrLeTransitive(sa, sb, sc);
    }
    if StrLe(cm, am) && StrLe(am, cm) {
      StrLeAntisymmetric(am, cm);
    }
    if StrLe(sc, sa) && StrLe(sa, sc) {
      StrLeAntisymmetric(sa, sc);
    }
  }

  /** No record comes after one the comparator puts after it. */
  predicate Sorted(s: seq<IdolWithDiff>) {
    forall i, j :: 0 <= i < j < |s| ==> !Before(s[j], s[i])
  }

  /** `x` placed into `s` behind every record it does not sort strictly before, scanning from the
      end as the inner loop of an insertion sort does. */
  function Insert(s: seq<IdolWithDiff>, x: IdolWithDiff): (r: seq<IdolWithDiff>)
    ensures multiset(r) == multiset(s) + multiset{x}
  {
    if s == [] || !Before(x, s[|s| - 1]) then s + [x]
    else
      var front := s[..|s| - 1];
      assert s == front + [s[|s| - 1]];
      Insert(front, x) + [s[|s| - 1]]
  }

  /** The stable sort the comparator asks for: each record inserted in turn. */
  function SortSpec(list: seq<IdolWithDiff>): (r: seq<IdolWithDiff>)
    ensures multiset(r) == multiset(list)
  {
    if list == [] then []
    else
      var front := list[..|list| - 1];
      assert list == front + [list[|list| - 1]];
      Insert(SortSpec(front), list[|list| - 1])
  }

  /** Inserting into a sorted list keeps it sorted. */
  lemma {:induction false} InsertSorted(s: seq<IdolWithDiff>, x: IdolWithDiff)
    requires Sorted(s)
    ensures Sorted(Insert(s, x))
  {
    if s != [] {
      var last := s[|s| - 1];
      var front := s[..|s| - 1];
      if !Before(x, last) {
        forall i | 0 <= i < |s| ensures !Before(x, s[i]) {
          if i < |s| - 1 {
            NotBeforeTransitive(s[i], last, x);
          }
        }
        assert Sorted(s + [x]);
      } else {
        InsertSorted(front, x);
        var r := Insert(front, x);
        assert !Before(last, x) by {
          BeforeAsymmetric(x, last);
        }
        forall y | y in r ensures !Before(last, y) {
          assert y in multiset(r);
          if y != x {
            assert y in multiset(front);
            var i :| 0 <= i < |front| && front[i] == y;
            assert s[i] == y;
          }
        }
        assert Sorted(r + [last]);
      }
    }
  }

  /** The specification's result is sorted. */
  lemma {:induction false} SortSpecSorted(list: seq<IdolWithDiff>)
    ensures Sorted(SortSpec(list))
  {
    if list != [] {
      SortSpecSorted(list[..|list| - 1]);
      InsertSorted(SortSpec(list[..|list| - 1]), list[|list| - 1]);
    }
  }

  /** The records of `s` with key `k`, in order. */
  function WithKey(s: seq<IdolWithDiff>, k: SortKey): seq<IdolWithDiff> {
    if s == [] then []
    else WithKey(s[..|s| - 1], k) + (if Key(s[|s| - 1]) == k then [s[|s| - 1]] else [])
  }

  /** Inserting puts the new record behind every record with its key. */
  lemma {:induction false} InsertStable(s: seq<IdolWithDiff>, x: IdolWithDiff, k: SortKey)
    ensures WithKey(Insert(s, x), k) == WithKey(s, k) + (if Key(x) == k then [x] else [])
  {
    if s != [] && Before(x, s[|s| - 1]) {
      var last := s[|s| - 1];
      var front := s[..|s| - 1];
      InsertStable(front, x, k);
      BeforeIffKeysDiffer(x, last);
      var r := Insert(front, x);
      DropLast(r, last);
      var mine := if Key(x) == k then [x] else [];
      var theirs := if Key(last) == k then [last] else [];
      assert WithKey(r + [last], k) == WithKey(r, k) + theirs;
      AppendEitherOrder(WithKey(front, k), mine, theirs);
    } else {
      DropLast(s, x);
    }
  }

  /** Stability: for every key, the records with that key come out in their input order. */
  lemma {:induction false} SortSpecStable(list: seq<IdolWithDiff>, k: SortKey)
    ensures WithKey(SortSpec(list), k) == WithKey(list, k)
  {
    if list != [] {
      var front := list[..|list| - 1];
      SortSpecStable(front, k);
      InsertStable(SortSpec(front), list[|list| - 1], k);
    }
  }

  /** `[...list].sort(...)`: an insertion sort on a fresh array holding a copy of the list, so the
      list itself is left as it was. */
  method SortByUpcoming(list: seq<IdolWithDiff>) returns (r: seq<IdolWithDiff>)
    ensures r == SortSpec(list)
  {
    var a := new IdolWithDiff[|list|](k requires 0 <= k < |list| => list[k]);
    for i := 0 to |list|
      invariant a[..i] == SortSpec(list[..i])
      invariant forall k :: i <= k < |list| ==> a[k] == list[k]
    {
      InsertAt(a, i);
      SortSpecStep(list, i);
    }
    r := a[..];
    assert list[..|list|] == list;
  }

  /** One pass of the insertion sort: `a[i]` moves left past every record it sorts strictly before,
      which move one place right; the sorted prefix grows by one and the rest stays. */
  method InsertAt(a: array<IdolWithDiff>, i: nat)
    requires i < a.Length
    modifies a
    ensures a[..i + 1] == Insert(old(a[..i]), old(a[i]))
    ensures forall k :: i < k < a.Length ==> a[k] == old(a[k])
  {
    var x := a[i];
    ghost var s := a[..i];
    var j := ShiftRight(a, i, x);
    a[j] := x;
    InsertPlace(s, x, j);
    InsertedAt(a[..i + 1], s, x, j);
  }

  /** The inner loop: the records of `a[..i]` that `x` sorts strictly before, a suffix of them,
      move one place right; `j` is the gap left in front of them. */
  method ShiftRight(a: array<IdolWithDiff>, i: nat, x: IdolWithDiff) returns (j: nat)
    requires i < a.Length
    modifies a
    ensures j <= i
    ensures forall k :: 0 <= k < j ==> a[k] == old(a[k])
    ensures forall k :: j < k <= i ==> a[k] == old(a[k - 1])
    ensures forall k :: i < k < a.Length ==> a[k] == old(a[k])
    ensures j == 0 || !Before(x, old(a[j - 1]))
    ensures forall k :: j <= k < i ==> Before(x, old(a[k]))
  {
    j := i;
    while j > 0 && Before(x, a[j - 1])
      invariant 0 <= j <= i
      invariant forall k :: 0 <= k < j ==> a[k] == old(a[k])
      invariant forall k :: j < k <= i ==> a[k] == old(a[k - 1])
      invariant forall k :: i < k < a.Length ==> a[k] == old(a[k])
      invariant forall k :: j <= k < i ==> Before(x, old(a[k]))
      decreases j
    {
      a[j] := a[j - 1];
      j := j - 1;
    }
  }

  /** Where the inner loop stops, behind the records `x` does not sort strictly before and in front
      of those it does, is where `Insert` puts `x`. */
  lemma {:induction false} InsertPlace(s: seq<IdolWithDiff>, x: IdolWithDiff, j: nat)
    requires j <= |s| && (j == 0 || !Before(x, s[j - 1]))
    requires forall k :: j <= k < |s| ==> Before(x, s[k])
    ensures Insert(s, x) == s[..j] + [x] + s[j..]
  {
    if j == |s| {
      assert s[..j] == s && s[j..] == [];
    } else {
      var front := s[..|s| - 1];
      var last := s[|s| - 1];
      assert Insert(s, x) == Insert(front, x) + [last];
      InsertPlace(front, x, j);
      SplitBeforeLast(s, j);
      AppendAssoc(front[..j] + [x], front[j..], [last]);
    }
  }

  lemma SortSpecStep(list: seq<IdolWithDiff>, i: nat)
    requires i < |list|
    ensures SortSpec(list[..i + 1]) == Insert(SortSpec(list[..i]), list[i])
  {
    assert list[..i + 1][..i] == list[..i];
  }

  /** `sortByUpcoming` returns the records of the list, each as often as in the list, sorted by the
      comparator, with records of equal key in list order. */
  lemma SortByUpcomingCorrect(list: seq<IdolWithDiff>)
    ensures multiset(SortSpec(list)) == multiset(list)
    ensures Sorted(SortSpec(list))
    ensures forall k :: WithKey(SortSpec(list), k) == WithKey(list, k)
  {
    SortSpecSorted(list);
    forall k ensures WithKey(SortSpec(list), k) == WithKey(list, k) {
      SortSpecStable(list, k);
    }
  }
}
