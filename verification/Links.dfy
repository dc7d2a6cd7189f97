/**
 * Doubly linked lists threaded through `next`/`prev` fields of records that live
 * at integer addresses.  The kernel writes this structure by hand several times
 * (free lists, run queues, subscriber lists, the LRU list, collision chains); the
 * lemmas here say, once, what each pattern of pointer writes does to the sequence
 * that the pointers spell out.
 */
module Links {

  /** The C null pointer. */
  const NULL := -1
  /** The poison written into the links of an unlinked record (0xDEADBEEF). */
  const POISON := -2

  /** The element at index i, or NULL just outside the list. */
  function At(s: seq<int>, i: int): (p: int) {
    if 0 <= i < |s| then s[i] else NULL
  }

  /** The record s[i] points at its neighbours in s. */
  ghost predicate LinkedAt(next: map<int, int>, prev: map<int, int>, s: seq<int>, i: int)
    requires 0 <= i < |s|
  {
    && 0 <= s[i]
    && s[i] in next && next[s[i]] == At(s, i + 1)
    && s[i] in prev && prev[s[i]] == At(s, i - 1)
  }

  ghost predicate Distinct(s: seq<int>) {
    forall i, j | 0 <= i < j < |s| :: s[i] != s[j]
  }

  /** The `next`/`prev` fields spell out exactly the sequence s. */
  ghost predicate IsList(next: map<int, int>, prev: map<int, int>, s: seq<int>) {
    && Distinct(s)
    && forall i {:trigger LinkedAt(next, prev, s, i)} | 0 <= i < |s| :: LinkedAt(next, prev, s, i)
  }

  lemma ListDistinct(next: map<int, int>, prev: map<int, int>, s: seq<int>)
    requires IsList(next, prev, s)
    ensures Distinct(s)
  {
  }

  /** A list is untouched by writes to records outside it. */
  lemma Frame(next: map<int, int>, prev: map<int, int>, next': map<int, int>, prev': map<int, int>, s: seq<int>)
    requires IsList(next, prev, s)
    requires forall a | a in s ::
               && (a in next ==> a in next' && next'[a] == next[a])
               && (a in prev ==> a in prev' && prev'[a] == prev[a])
    ensures IsList(next', prev', s)
  {
    forall i | 0 <= i < |s| ensures LinkedAt(next', prev', s, i) {
      assert LinkedAt(next, prev, s, i);
    }
  }

  /** Listed records have non-null addresses and both link fields. */
  lemma NonNull(next: map<int, int>, prev: map<int, int>, s: seq<int>)
    requires IsList(next, prev, s)
    ensures forall a | a in s :: 0 <= a && a in next && a in prev
    ensures At(s, 0) == NULL <==> s == []
    ensures At(s, |s| - 1) == NULL <==> s == []
  {
    forall a | a in s ensures 0 <= a && a in next && a in prev {
      assert LinkedAt(next, prev, s, IndexOf(s, a));
    }
    if s != [] {
      assert LinkedAt(next, prev, s, 0) && LinkedAt(next, prev, s, |s| - 1);
    }
  }

  /** The link fields of the record at index k. */
  lemma FieldsAt(next: map<int, int>, prev: map<int, int>, s: seq<int>, k: int)
    requires IsList(next, prev, s) && 0 <= k < |s|
    ensures 0 <= s[k] && s[k] in next && s[k] in prev
    ensures next[s[k]] == At(s, k + 1) && prev[s[k]] == At(s, k - 1)
    ensures k + 1 < |s| ==> 0 <= s[k + 1] && s[k + 1] != s[k]
    ensures 0 < k ==> 0 <= s[k - 1] && s[k - 1] != s[k]
    ensures 0 < k && k + 1 < |s| ==> s[k - 1] != s[k + 1]
    ensures s[k] == At(s, 0) <==> k == 0
    ensures s[k] == At(s, |s| - 1) <==> k == |s| - 1
  {
    assert LinkedAt(next, prev, s, k);
    if k + 1 < |s| {
      assert LinkedAt(next, prev, s, k + 1);
    }
    if 0 < k {
      assert LinkedAt(next, prev, s, k - 1);
    }
  }

  /** The element k of a list occurs at no other index. */
  function Without(s: seq<int>, k: int): (r: seq<int>)
    requires 0 <= k < |s|
    ensures |r| == |s| - 1
    ensures Distinct(s) ==> Distinct(r) && forall a :: a in r <==> a in s && a != s[k]
  {
    var r := s[..k] + s[k + 1..];
    assert forall i | 0 <= i < |s| && i != k :: s[i] == r[if i < k then i else i - 1];
    assert forall i | 0 <= i < |r| :: r[i] == s[if i < k then i else i + 1];
    r
  }

  /** Linking a new record in front of the head. */
  lemma PushFront(next: map<int, int>, prev: map<int, int>, s: seq<int>, x: int)
    requires IsList(next, prev, s) && 0 <= x && x !in s
    ensures var next' := next[x := At(s, 0)];
            var prev0 := prev[x := NULL];
            var prev' := if s == [] then prev0 else prev0[s[0] := x];
            IsList(next', prev', [x] + s)
  {
    var next' := next[x := At(s, 0)];
    var prev0 := prev[x := NULL];
    var prev' := if s == [] then prev0 else prev0[s[0] := x];
    var t := [x] + s;
    forall i | 0 <= i < |t| ensures LinkedAt(next', prev', t, i) {
      if i > 0 {
        assert LinkedAt(next, prev, s, i - 1);
      }
    }
  }

  /** Linking a new record behind the last element. */
  lemma PushBack(next: map<int, int>, prev: map<int, int>, s: seq<int>, x: int)
    requires IsList(next, prev, s) && 0 <= x && x !in s
    ensures var next0 := next[x := NULL];
            var next' := if s == [] then next0 else next0[s[|s| - 1] := x];
            IsList(next', prev[x := At(s, |s| - 1)], s + [x])
  {
    var next0 := next[x := NULL];
    var next' := if s == [] then next0 else next0[s[|s| - 1] := x];
    var prev' := prev[x := At(s, |s| - 1)];
    var t := s + [x];
    forall i | 0 <= i < |t| ensures LinkedAt(next', prev', t, i) {
      if i < |s| {
        assert LinkedAt(next, prev, s, i);
      }
    }
  }

  /** Linking a new record directly behind s[k]. */
  lemma InsertAfter(next: map<int, int>, prev: map<int, int>, s: seq<int>, k: int, x: int)
    requires IsList(next, prev, s) && 0 <= x && x !in s && 0 <= k < |s|
    ensures var next' := next[x := At(s, k + 1)][s[k] := x];
            var prev0 := prev[x := s[k]];
            var prev' := if k + 1 < |s| then prev0[s[k + 1] := x] else prev0;
            IsList(next', prev', s[..k + 1] + [x] + s[k + 1..])
  {
    var next' := next[x := At(s, k + 1)][s[k] := x];
    var prev0 := prev[x := s[k]];
    var prev' := if k + 1 < |s| then prev0[s[k + 1] := x] else prev0;
    var t := s[..k + 1] + [x] + s[k + 1..];
    forall i | 0 <= i < |t| ensures LinkedAt(next', prev', t, i) {
      if i != k + 1 {
        assert LinkedAt(next, prev, s, if i <= k then i else i - 1);
      }
    }
  }

  /** What the two neighbour writes of an unlink leave in the link fields. */
  ghost function NextWithout(next: map<int, int>, s: seq<int>, k: int): (n: map<int, int>)
    requires 0 <= k < |s|
  {
    if 0 < k then next[s[k - 1] := At(s, k + 1)] else next
  }

  ghost function PrevWithout(prev: map<int, int>, s: seq<int>, k: int): (p: map<int, int>)
    requires 0 <= k < |s|
  {
    if k + 1 < |s| then prev[s[k + 1] := At(s, k - 1)] else prev
  }

  /** Unlinking s[k]: its neighbours are joined; its own links no longer matter. */
  lemma Unlink(next: map<int, int>, prev: map<int, int>, s: seq<int>, k: int)
    requires IsList(next, prev, s) && 0 <= k < |s|
    ensures IsList(NextWithout(next, s, k), PrevWithout(prev, s, k), Without(s, k))
  {
    var t := Without(s, k);
    forall i | 0 <= i < |t| ensures LinkedAt(NextWithout(next, s, k), PrevWithout(prev, s, k), t, i) {
      assert LinkedAt(next, prev, s, if i < k then i else i + 1);
    }
  }

  /** The index of an element. */
  ghost function IndexOf(s: seq<int>, a: int): (k: int)
    requires a in s
    ensures 0 <= k < |s| && s[k] == a
  {
    var k :| 0 <= k < |s| && s[k] == a;
    k
  }
}
