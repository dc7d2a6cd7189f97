/**
 * The replacement policy of the NVMe block cache (kernel/src/driver/nvme.c) as a function: how
 * an access changes the ages of the cached blocks, which block it throws out, and exactly when a
 * block survives a run of accesses.
 */
module NvmeLru {
  import opened Links
  import opened NvmeIndex
  import opened NvmeView

  /** The LRU nodes and the slots point at each other, one to one. */
  ghost predicate Threaded(cache: seq<Slot>, order: seq<int>, index: map<int, int>) {
    && |order| == |cache|
    && (forall i | 0 <= i < |cache| ::
          cache[i].lruref in order && cache[i].lruref in index && index[cache[i].lruref] == i)
    && (forall a | a in order :: a in index && 0 <= index[a] < |cache| && cache[index[a]].lruref == a)
  }

  lemma ThreadedMoved(cache: seq<Slot>, order: seq<int>, index: map<int, int>, k: int)
    requires Threaded(cache, order, index) && 0 <= k < |order| && Distinct(order)
    ensures Threaded(cache, [order[k]] + Without(order, k), index)
  {
  }

  lemma ThreadedLength(cache: seq<Slot>, order: seq<int>, index: map<int, int>)
    requires Threaded(cache, order, index)
    ensures |order| == |cache|
  {
  }

  lemma ThreadedUpdate(cache: seq<Slot>, order: seq<int>, index: map<int, int>, i: nat, x: Slot)
    requires Threaded(cache, order, index) && i < |cache| && x.lruref == cache[i].lruref
    ensures Threaded(cache[i := x], order, index)
  {
  }

  // ------------------------------------------------------------------- ages

  /** How many slots have been used since each cached block was. */
  type Ages = map<nat, nat>

  ghost function AgeIn(s: State, order: seq<int>, b: nat): (n: nat)
    requires b in s.dict && s.dict[b] < |s.cache| && s.cache[s.dict[b]].lruref in order
  {
    IndexOf(order, s.cache[s.dict[b]].lruref)
  }

  ghost function AgesOf(s: State, order: seq<int>): (ages: Ages) {
    map b | b in s.dict && s.dict[b] < |s.cache| && s.cache[s.dict[b]].lruref in order :: AgeIn(s, order, b)
  }

  /** An access to b: b is the youngest, the blocks that were younger than b grow older, and if b
      was not cached all do and a block of the highest age is gone. */
  function Aged(ages: Ages, b: nat): (r: Ages) {
    map t | t in ages.Keys + {b} && (t == b || b in ages || ages[t] + 1 < NCACHES) ::
      if t == b then 0 else if b in ages && ages[b] < ages[t] then ages[t] else ages[t] + 1
  }

  /** Accesses to the blocks from, from + 1, ..., to - 1. */
  function AgedRange(ages: Ages, from: nat, upTo: nat): (r: Ages)
    decreases upTo
  {
    if upTo <= from then ages else Aged(AgedRange(ages, from, upTo - 1), upTo - 1)
  }

  /** Ages depend on which block and which node each slot has. */
  lemma TagsAges(s: State, t: State, order: seq<int>)
    requires t.dict == s.dict && |t.cache| == |s.cache|
    requires forall i | 0 <= i < |s.cache| :: t.cache[i].lruref == s.cache[i].lruref
    ensures AgesOf(t, order) == AgesOf(s, order)
  {
  }

  /** Where an element is after order[j] has moved to the front. */
  lemma RankMoved(order: seq<int>, j: int, a: int)
    requires Distinct(order) && 0 <= j < |order| && a in order
    ensures var moved := [order[j]] + Without(order, j); var k := IndexOf(order, a);
            && Distinct(moved) && a in moved
            && IndexOf(moved, a) == if k == j then 0 else if k < j then k + 1 else k
  {
    var moved := [order[j]] + Without(order, j);
    var k := IndexOf(order, a);
    var r := if k == j then 0 else if k < j then k + 1 else k;
    MovedIndex(order, j, r);
    assert moved[r] == a;
    forall x, y | 0 <= x < y < |moved|
      ensures moved[x] != moved[y]
    {
      MovedIndex(order, j, x);
      MovedIndex(order, j, y);
    }
  }

  /** The node of a cached block, and that other blocks have other nodes. */
  lemma NodeOf(s: State, order: seq<int>, index: map<int, int>, b: nat)
    requires Consistent(s) && Threaded(s.cache, order, index) && b in s.dict
    ensures s.dict[b] < |s.cache| && s.cache[s.dict[b]].bid == b && s.cache[s.dict[b]].lruref in order
    ensures b in AgesOf(s, order) && AgesOf(s, order)[b] == AgeIn(s, order, b) < |order|
    ensures order[AgeIn(s, order, b)] == s.cache[s.dict[b]].lruref
    ensures forall i | 0 <= i < |s.cache| && i != s.dict[b] :: s.cache[i].lruref != s.cache[s.dict[b]].lruref
  {
  }

  lemma AgesAreKeys(s: State, order: seq<int>, index: map<int, int>)
    requires Consistent(s) && Threaded(s.cache, order, index)
    ensures AgesOf(s, order).Keys == s.dict.Keys
  {
    forall b | b in s.dict
      ensures b in AgesOf(s, order)
    {
      NodeOf(s, order, index, b);
    }
  }

  /** Different blocks have different ages, all below the number of slots. */
  ghost predicate Ranked(ages: Ages) {
    && (forall b | b in ages :: ages[b] < NCACHES)
    && (forall a, b | a in ages && b in ages && a != b :: ages[a] != ages[b])
  }

  lemma AgesRanked(s: State, order: seq<int>, index: map<int, int>)
    requires Consistent(s) && Threaded(s.cache, order, index) && |order| == NCACHES
    ensures Ranked(AgesOf(s, order))
  {
    hide Threaded;
    AgesAreKeys(s, order, index);
    forall a, b | a in s.dict && b in s.dict && a != b
      ensures AgesOf(s, order)[a] != AgesOf(s, order)[b] && AgesOf(s, order)[a] < NCACHES
    {
      NodeOf(s, order, index, a);
      NodeOf(s, order, index, b);
    }
    forall b | b in s.dict
      ensures AgesOf(s, order)[b] < NCACHES
    {
      NodeOf(s, order, index, b);
    }
  }

  /** A hit moves the block's node to the front. */
  lemma HitAges(s: State, order: seq<int>, index: map<int, int>, b: nat)
    requires Consistent(s) && Threaded(s.cache, order, index) && Distinct(order) && b in s.dict
    ensures s.dict[b] < |s.cache| && s.cache[s.dict[b]].lruref in order
    ensures var j := IndexOf(order, s.cache[s.dict[b]].lruref);
            AgesOf(s, [order[j]] + Without(order, j)) == Aged(AgesOf(s, order), b)
  {
    hide Threaded, Without, Aged, AgesOf, Consistent;
    NodeOf(s, order, index, b);
    var j := IndexOf(order, s.cache[s.dict[b]].lruref);
    var moved := [order[j]] + Without(order, j);
    ThreadedMoved(s.cache, order, index, j);
    AgesAreKeys(s, order, index);
    AgesAreKeys(s, moved, index);
    HitKeys(AgesOf(s, order), b);
    forall t | t in s.dict
      ensures AgesOf(s, moved)[t] == Aged(AgesOf(s, order), b)[t]
    {
      HitAge(AgesOf(s, order), b, t);
      HitOne(s, order, index, j, b, t);
    }
  }

  lemma HitOne(s: State, order: seq<int>, index: map<int, int>, j: nat, b: nat, t: nat)
    requires Consistent(s) && Threaded(s.cache, order, index) && Distinct(order)
    requires b in s.dict && t in s.dict && s.dict[b] < |s.cache| && s.cache[s.dict[b]].lruref in order
    requires j == IndexOf(order, s.cache[s.dict[b]].lruref)
    ensures b in AgesOf(s, order) && t in AgesOf(s, order) && t in AgesOf(s, [order[j]] + Without(order, j))
    ensures AgesOf(s, [order[j]] + Without(order, j))[t]
            == var ages := AgesOf(s, order);
               if t == b then 0 else if ages[b] < ages[t] then ages[t] else ages[t] + 1
  {
    hide Threaded, Without, AgesOf;
    var moved := [order[j]] + Without(order, j);
    ThreadedMoved(s.cache, order, index, j);
    NodeOf(s, order, index, b);
    NodeOf(s, order, index, t);
    NodeOf(s, moved, index, t);
    RankMoved(order, j, s.cache[s.dict[t]].lruref);
    assert t != b ==> s.dict[t] != s.dict[b];
  }

  lemma HitKeys(ages: Ages, b: nat)
    requires b in ages
    ensures Aged(ages, b).Keys == ages.Keys
  {
  }

  lemma HitAge(ages: Ages, b: nat, t: nat)
    requires b in ages && t in ages
    ensures t in Aged(ages, b)
    ensures Aged(ages, b)[t] == if t == b then 0 else if ages[b] < ages[t] then ages[t] else ages[t] + 1
  {
  }

  lemma MissAge(ages: Ages, b: nat, t: nat)
    requires b !in ages
    ensures t in Aged(ages, b) <==> t == b || (t in ages && ages[t] + 1 < NCACHES)
    ensures t in Aged(ages, b) ==> Aged(ages, b)[t] == if t == b then 0 else ages[t] + 1
  {
  }

  /** A miss gives the slot i at the end of the list to b. */
  ghost predicate Replaced(s: State, t: State, i: nat, b: nat) {
    && i < |s.cache| == |t.cache| && t.dict == (s.dict - {s.cache[i].bid})[b := i]
    && forall j | 0 <= j < |s.cache| :: t.cache[j].lruref == s.cache[j].lruref
  }

  lemma MissAges(s: State, t: State, order: seq<int>, index: map<int, int>, i: nat, b: nat)
    requires Consistent(s) && Consistent(t) && Threaded(s.cache, order, index) && Threaded(t.cache, order, index)
    requires Distinct(order) && |order| == NCACHES && b !in s.dict
    requires Replaced(s, t, i, b) && s.cache[i].lruref == order[NCACHES - 1]
    ensures AgesOf(t, [order[NCACHES - 1]] + Without(order, NCACHES - 1)) == Aged(AgesOf(s, order), b)
  {
    hide Threaded, Without, Aged, AgesOf, Consistent, Replaced;
    var j := NCACHES - 1;
    var moved := [order[j]] + Without(order, j);
    ThreadedMoved(t.cache, order, index, j);
    AgesAreKeys(s, order, index);
    AgesAreKeys(t, moved, index);
    forall c: nat
      ensures c in t.dict <==> c in Aged(AgesOf(s, order), b)
      ensures c in t.dict ==> AgesOf(t, moved)[c] == Aged(AgesOf(s, order), b)[c]
    {
      MissAge(AgesOf(s, order), b, c);
      MissOne(s, t, order, index, i, b, c);
    }
  }

  lemma MissOne(s: State, t: State, order: seq<int>, index: map<int, int>, i: nat, b: nat, c: nat)
    requires Consistent(s) && Consistent(t) && Threaded(s.cache, order, index) && Threaded(t.cache, order, index)
    requires Distinct(order) && |order| == NCACHES && b !in s.dict
    requires Replaced(s, t, i, b) && s.cache[i].lruref == order[NCACHES - 1]
    ensures c in s.dict ==> c in AgesOf(s, order)
    ensures c in t.dict <==> c == b || (c in s.dict && AgesOf(s, order)[c] + 1 < NCACHES)
    ensures c in t.dict ==>
              && c in AgesOf(t, [order[NCACHES - 1]] + Without(order, NCACHES - 1))
              && AgesOf(t, [order[NCACHES - 1]] + Without(order, NCACHES - 1))[c]
                 == if c == b then 0 else AgesOf(s, order)[c] + 1
  {
    hide Threaded, Without, AgesOf;
    var j := NCACHES - 1;
    var moved := [order[j]] + Without(order, j);
    ThreadedMoved(t.cache, order, index, j);
    if c in s.dict {
      NodeOf(s, order, index, c);
      LastAge(s, order, index, i, c);
    }
    if c in t.dict {
      NodeOf(t, moved, index, c);
      RankMoved(order, j, t.cache[t.dict[c]].lruref);
    }
  }

  /** The block in the last slot, if any, is the one of the highest age. */
  lemma LastAge(s: State, order: seq<int>, index: map<int, int>, i: nat, c: nat)
    requires Consistent(s) && Threaded(s.cache, order, index) && Distinct(order) && |order| == NCACHES
    requires i < |s.cache| && s.cache[i].lruref == order[NCACHES - 1] && c in s.dict
    ensures c in AgesOf(s, order) && AgesOf(s, order)[c] < NCACHES
    ensures AgesOf(s, order)[c] == NCACHES - 1 <==> s.cache[i].bid == c
  {
    hide Threaded;
    NodeOf(s, order, index, c);
    assert s.dict[c] == i <==> s.cache[i].bid == c by {
      assert SlotRight(s, i, s.cache[i]);
    }
  }

  // ---------------------------------------------------- exactly who survives

  /** The accesses among from..to that make t grow older: those to blocks not used since t. */
  function Newer(ages: Ages, from: nat, upTo: nat, t: nat): (n: nat)
    decreases upTo
  {
    if upTo <= from then 0
    else Newer(ages, from, upTo - 1, t) + if Ahead(ages, upTo - 1, t) then 0 else 1
  }

  /** y is cached and has been used since t was. */
  predicate Ahead(ages: Ages, y: nat, t: nat) {
    y in ages && t in ages && ages[y] < ages[t]
  }

  lemma AgedRanked(ages: Ages, b: nat)
    requires Ranked(ages)
    ensures Ranked(Aged(ages, b))
  {
  }

  /** An access to another block does not change who is ahead of t, while t is there. */
  lemma AheadStays(ages: Ages, b: nat, y: nat, t: nat)
    requires Ranked(ages) && t in ages && y != b && t != b && t in Aged(ages, b)
    ensures Ahead(Aged(ages, b), y, t) <==> Ahead(ages, y, t)
  {
  }

  /** A block survives accesses to other blocks exactly if its age, plus the number of accessed
      blocks that were not used since it was, is below the number of slots. */
  lemma {:induction false} SurvivesExactly(ages: Ages, from: nat, upTo: nat, t: nat)
    requires Ranked(ages) && t in ages && (t < from || upTo <= t)
    ensures var r := AgedRange(ages, from, upTo);
            && Ranked(r)
            && (t in r <==> ages[t] + Newer(ages, from, upTo, t) < NCACHES)
            && (t in r ==> r[t] == ages[t] + Newer(ages, from, upTo, t))
            && (t in r ==> forall y: nat | upTo <= y :: Ahead(r, y, t) <==> Ahead(ages, y, t))
    decreases upTo
  {
    hide Aged;
    if from < upTo {
      SurvivesExactly(ages, from, upTo - 1, t);
      var q := AgedRange(ages, from, upTo - 1);
      AgedRanked(q, upTo - 1);
      AgedOne(q, upTo - 1, t);
      if t in q && t in Aged(q, upTo - 1) {
        forall y: nat | upTo <= y
          ensures Ahead(Aged(q, upTo - 1), y, t) <==> Ahead(ages, y, t)
        {
          AheadStays(q, upTo - 1, y, t);
        }
      }
    }
  }

  lemma AgedOne(ages: Ages, b: nat, t: nat)
    requires Ranked(ages) && t != b
    ensures t in Aged(ages, b) <==> t in ages && ages[t] + (if Ahead(ages, b, t) then 0 else 1) < NCACHES
    ensures t in Aged(ages, b) ==> Aged(ages, b)[t] == ages[t] + if Ahead(ages, b, t) then 0 else 1
  {
  }

  /** Accesses to consecutive blocks none of which was used since t all count. */
  lemma {:induction false} NewerAll(ages: Ages, from: nat, upTo: nat, t: nat)
    requires from <= upTo && forall y: nat | from <= y < upTo :: !Ahead(ages, y, t)
    ensures Newer(ages, from, upTo, t) == upTo - from
    decreases upTo
  {
    if from < upTo {
      NewerAll(ages, from, upTo - 1, t);
    }
  }

  lemma RangeStep(ages: Ages, from: nat, upTo: nat)
    requires from <= upTo
    ensures AgedRange(ages, from, upTo + 1) == Aged(AgedRange(ages, from, upTo), upTo)
  {
  }

  lemma RangeStart(ages: Ages, from: nat)
    ensures AgedRange(ages, from, from) == ages
  {
  }

  lemma YoungestNow(ages: Ages, b: nat)
    ensures b in AgedRange(ages, b, b + 1) && AgedRange(ages, b, b + 1)[b] == 0
  {
    RangeStep(ages, b, b);
  }

  /** As many accesses to other blocks as there are slots throw the youngest block out. */
  lemma YoungestLeaves(ages: Ages, from: nat, t: nat)
    requires Ranked(ages) && t in ages && ages[t] == 0 && t < from
    ensures t !in AgedRange(ages, from, from + NCACHES)
  {
    NewerAll(ages, from, from + NCACHES, t);
    SurvivesExactly(ages, from, from + NCACHES, t);
  }

  /** Whether block b, cached or not, is still cached when the blocks from `from` up to it have
      been accessed. */
  predicate StaysCached(ages: Ages, from: nat, b: nat) {
    b in ages && ages[b] + Newer(ages, from, b, b) < NCACHES
  }

  lemma {:induction false} NeverEnters(ages: Ages, from: nat, upTo: nat, t: nat)
    requires t !in ages && upTo <= t
    ensures t !in AgedRange(ages, from, upTo)
    decreases upTo
  {
    if from < upTo {
      NeverEnters(ages, from, upTo - 1, t);
    }
  }

  lemma StaysExactly(ages: Ages, from: nat, b: nat)
    requires Ranked(ages)
    ensures b in AgedRange(ages, from, b) <==> StaysCached(ages, from, b)
  {
    if b in ages {
      SurvivesExactly(ages, from, b, b);
    } else {
      NeverEnters(ages, from, b, b);
    }
  }
}
