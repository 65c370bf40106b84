/** The linear-probing hash set: a class over a bucket array that grows, refining a finite set of items
    that are pairwise different under the caller's equality. */
module HashSets {
  import opened Options
  import opened ProbeTable

  const SIZES: seq<nat> :=
    [1, 3, 7, 13, 23, 37, 59, 97, 149, 227, 347, 523, 787, 1187, 1783, 2677, 4019] +
    [6037, 9059, 13591, 20389, 30593, 45887, 68863, 103307, 154981, 232487, 348739, 523129, 784697, 1177067, 1765609,
     2648419, 3972643] +
    [5958971, 8938469, 13407707, 20111563, 30167359, 45251077, 67876637, 101814991, 152722489, 229083739, 343625629,
     515438447, 773157683, 1159736527, 1739604799, 2609407319, 3914111041]

  const LAST: nat := 3914111041

  /** How many items a table of this size may hold before it grows. */
  function Limit(size: nat): nat {
    ((size + 2) / 3) * 2
  }

  predicate IsSize(size: nat) {
    exists k :: 1 <= k < |SIZES| && SIZES[k] == size
  }

  /** Each size is larger than the one before, and takes as many items as the one before has buckets;
      the one exception misses by one item. */
  lemma SizesGrow(k: nat)
    requires k + 1 < |SIZES|
    ensures SIZES[k] < SIZES[k + 1] && (k > 0 ==> Limit(SIZES[k]) < Limit(SIZES[k + 1]))
    ensures SIZES[k] <= Limit(SIZES[k + 1]) <==> SIZES[k] != 30593
  {
    assert k > 0 ==> SIZES[k] + 3 <= SIZES[k + 1];
    if SIZES[k] == 30593 {
      assert k == 21;
      assert SIZES[22] == 45887;
    } else {
      assert 3 * SIZES[k] <= 2 * SIZES[k + 1];
      TwoThirds(SIZES[k], SIZES[k + 1]);
    }
  }

  /** A table may be filled to at most two thirds in one size only. */
  lemma TwoThirdsOnlyAtThree(k: nat)
    requires 1 <= k < |SIZES|
    ensures 3 * Limit(SIZES[k]) <= 2 * SIZES[k] <==> SIZES[k] == 3
  {
    if k > 1 {
      assert SIZES[k] % 3 != 0;
    }
  }

  lemma TwoThirds(a: nat, b: nat)
    requires 3 * a <= 2 * b
    ensures a <= Limit(b)
  {
  }

  lemma {:induction false} SizesAscend(j: nat, k: nat)
    requires j < k < |SIZES|
    ensures SIZES[j] < SIZES[k]
    decreases k
  {
    SizesGrow(k - 1);
    if j < k - 1 {
      SizesAscend(j, k - 1);
    }
  }

  /** The limit always leaves an empty bucket. */
  lemma LimitBelowSize(size: nat)
    requires IsSize(size)
    ensures Limit(size) < size && 3 <= size <= LAST
  {
    var k :| 1 <= k < |SIZES| && SIZES[k] == size;
    assert SIZES[1] == 3 && SIZES[2] == 7 && SIZES[|SIZES| - 1] == LAST;
    if k + 1 < |SIZES| {
      SizesAscend(k, |SIZES| - 1);
    }
    if k > 2 {
      SizesAscend(2, k);
    }
  }

  lemma LimitMonotone(a: nat, b: nat)
    requires a <= b
    ensures Limit(a) <= Limit(b)
  {
  }

  /** The index of the first size that reaches capacity. */
  ghost predicate FirstReaching(capacity: nat, k: nat) {
    && k < |SIZES| && capacity <= SIZES[k]
    && forall j | 0 <= j < k :: SIZES[j] < capacity
  }

  /** The size chosen for an expected number of items: one step above the first size that reaches it. */
  ghost predicate SizeFor(capacity: nat, size: nat) {
    exists k: nat :: FirstReaching(capacity, k) && k + 1 < |SIZES| && size == SIZES[k + 1]
  }

  /** A new set takes the number of items it was made for without growing, except when made for 30593. */
  lemma CapacityFits(capacity: nat, size: nat)
    requires SizeFor(capacity, size)
    ensures capacity <= Limit(size) <==> capacity != 30593
  {
    var k: nat :| FirstReaching(capacity, k) && k + 1 < |SIZES| && size == SIZES[k + 1];
    SizesGrow(k);
    assert SIZES[21] == 30593 && SIZES[22] == 45887;
    if k < 21 {
      SizesAscend(k, 21);
    } else if k > 21 {
      assert SIZES[21] < capacity;
    }
  }

  /** The size above a size in use. */
  lemma SizeAbove(size: nat, next: nat)
    requires IsSize(size) && SizeFor(size, next)
    ensures IsSize(next) && size < next && Limit(size) + 1 <= Limit(next)
  {
    var i :| 1 <= i < |SIZES| && SIZES[i] == size;
    var k: nat :| FirstReaching(size, k) && k + 1 < |SIZES| && next == SIZES[k + 1];
    if k < i {
      SizesAscend(k, i);
    }
    assert k == i;
    SizesGrow(k);
  }

  /** The size search of the constructor. */
  method PickSize(capacity: nat) returns (size: nat)
    requires capacity <= SIZES[|SIZES| - 2]
    ensures SizeFor(capacity, size) && IsSize(size)
  {
    var i := 0;
    while i < |SIZES| && SIZES[i] < capacity
      invariant 0 <= i <= |SIZES| - 2
      invariant forall j | 0 <= j < i :: SIZES[j] < capacity
    {
      i := i + 1;
    }
    assert FirstReaching(capacity, i);
    size := SIZES[i + 1];
  }

  class HashSet<T(==, !new)> {
    const hash: T -> nat
    const eq: (T, T) -> bool
    var table: array<Option<T>>
    var size: nat
    var itemCount: nat

    /** What holds even while a removal is moving items: exact count, pairwise different items. */
    ghost predicate WellFormed()
      reads this, table
    {
      && Lawful(hash, eq)
      && IsSize(size) && table.Length == size
      && itemCount == Count(table[..])
      && Distinct(table[..], eq)
    }

    ghost predicate Valid()
      reads this, table
    {
      WellFormed() && NoGap(table[..], hash) && itemCount <= Limit(size)
    }

    ghost function Contents(): set<T>
      reads this, table
    {
      Items(table[..])
    }

    /** An empty set sized for capacity items. */
    constructor (hash: T -> nat, eq: (T, T) -> bool, capacity: nat)
      requires Lawful(hash, eq) && capacity <= SIZES[|SIZES| - 2]
      ensures this.hash == hash && this.eq == eq
      ensures Valid() && fresh(table) && Contents() == {} && itemCount == 0 && SizeFor(capacity, size)
    {
      hide NoGap, Distinct, Items, Count, Lawful, IsSize, SizeFor;
      var n := PickSize(capacity);
      LimitBelowSize(n);
      this.hash, this.eq := hash, eq;
      table := new Option<T>[n](_ => None);
      size := n;
      itemCount := 0;
      new;
      EmptyTable(table[..], hash, eq);
    }

    /** The probe loop of Add, Remove, Get and Iterate. */
    method Probe(item: T) returns (i: nat)
      requires Lawful(hash, eq) && size == table.Length > 0 && Count(table[..]) < size
      ensures IsStop(table[..], hash, eq, item, i)
    {
      CountBelow(table[..]);
      ghost var t := table[..];
      ghost var e :| 0 <= e < |t| && t[e].None?;
      ghost var home := Home(item, hash, size);
      i := hash(item) % size;
      while table[i].Some? && table[i] != Some(item) && !eq(table[i].value, item)
        invariant i < size && t == table[..]
        invariant forall k | 0 <= k < |t| && Dist(home, k, |t|) < Dist(home, i, |t|) ::
          t[k].Some? && !eq(t[k].value, item)
        decreases Dist(i, e, size)
      {
        i := Next(i, size);
        assert i != home;
      }
    }

    /** Adds item, or replaces the equal item in place; grows when the load limit is passed.
        Also used, mid-removal, on a table with gaps, provided nothing in it equals item. */
    method Add(item: T) returns (r: Option<T>, ghost p: nat)
      requires WellFormed() && itemCount <= Limit(size)
      requires itemCount + 1 <= Limit(LAST) || (NoGap(table[..], hash) && HasEqual(item))
      requires NoGap(table[..], hash) || forall y :: y in Contents() ==> !eq(y, item)
      modifies this, table
      ensures IsStop(old(table[..]), hash, eq, item, p) && r == old(table[..])[p]
      ensures WellFormed() && itemCount <= Limit(size)
      ensures itemCount == old(itemCount) + 1 - Used(r)
      ensures itemCount <= Limit(old(size)) ==>
                size == old(size) && table == old(table) && table[..] == old(table[..])[p := Some(item)]
      ensures itemCount > Limit(old(size)) ==> fresh(table) && NoGap(table[..], hash)
      ensures size >= old(size) && (table == old(table) || fresh(table))
      ensures Contents() == Items(old(table[..])[p := Some(item)])
      ensures old(Valid()) ==>
        Valid() && (forall y :: y in Contents() <==> y == item || (y in old(Contents()) && !eq(y, item))) &&
        (r.None? ==> forall y :: y in old(Contents()) ==> !eq(y, item)) &&
        (r.Some? ==> r.value in old(Contents()) && eq(r.value, item))
      decreases LAST - size, 1
    {
      LimitBelowSize(size);
      var i := Probe(item);
      p := i;
      ghost var t := table[..];
      if NoGap(t, hash) {
        StopDecides(t, hash, eq, item, p);
        StoreAtStop(t, hash, eq, item, p);
      } else { NothingEqual(t, eq, item, p); }
      StoreDistinct(t, hash, eq, item, p);
      CountUpdate(t, p, Some(item));
      r := table[i];
      if r.None? { itemCount := itemCount + 1; }
      table[i] := Some(item);
      assert table[..] == t[p := Some(item)];
      if itemCount > Limit(size) { Grow(size); }
    }

    /** Moves all items into the next larger table. */
    method Grow(capacity: nat)
      requires WellFormed() && capacity == size && itemCount == Limit(size) + 1 <= Limit(LAST)
      modifies this
      ensures Valid() && fresh(table) && size > old(size)
      ensures Contents() == old(Contents()) && itemCount == old(itemCount)
      decreases LAST - size, 0
    {
      hide NoGap, Distinct, Items, Count, Lawful, SizeFor, IsSize;
      NotLast(size);
      var newSet := new HashSet<T>(hash, eq, capacity);
      SizeAbove(size, newSet.size);
      LimitBelowSize(newSet.size);
      newSet.Union(this);
      assert newSet.Contents() == Contents();
      assert Contents() == old(Contents());
      CountIsSize(table[..], hash, eq);
      CountIsSize(newSet.table[..], hash, eq);
      table := newSet.table;
      size := newSet.size;
      itemCount := newSet.itemCount;
    }

    /** Adds every item of other; on equal items the one of other stays. A set united with itself stays as it is. */
    method Union(other: HashSet<T>)
      requires Valid() && other.WellFormed() && hash == other.hash && eq == other.eq
      requires other.table == table ==> other == this
      requires other != this ==> itemCount + other.itemCount <= Limit(LAST)
      modifies this, table
      ensures Valid() && size >= old(size) && (table == old(table) || fresh(table))
      ensures old(itemCount + other.itemCount) <= Limit(old(size)) ==> size == old(size)
      ensures forall y :: y in Contents() <==>
        y in old(other.Contents()) || (y in old(Contents()) && forall x :: x in old(other.Contents()) ==> !eq(y, x))
      ensures other == this ==> table == old(table) && table[..] == old(table[..]) && itemCount == old(itemCount)
      decreases LAST - size, 2
    {
      hide NoGap, Distinct, Items, Count, Lawful, IsSize, IsStop;
      ghost var mine := Contents();
      ghost var theirs := other.table[..];
      var i := 0;
      EmptyTable(theirs[..0], hash, eq);
      while i < other.size
        invariant 0 <= i <= other.size && theirs == other.table[..]
        invariant table == old(table) || fresh(table)
        invariant Valid() && size >= old(size)
        invariant other == this ==> table == old(table) && table[..] == theirs && size == old(size)
        invariant other != this ==> other.table != table && itemCount <= old(itemCount) + Count(theirs[..i])
        invariant other != this ==> old(itemCount) + other.itemCount <= Limit(old(size)) ==> size == old(size)
        invariant other != this ==> Merged(mine, theirs[..i], Contents())
      {
        var t := other.table[i];
        assert theirs[..i + 1] == theirs[..i] + [t];
        CountAppend(theirs[..i], t);
        CountPrefix(theirs, i + 1);
        if t.Some? {
          ghost var before, now := table[..], Contents();
          if other == this {
            OwnEqual(theirs, hash, eq, i);
          }
          var r;
          ghost var p;
          r, p := Add(t.value);
          if other == this {
            OwnStop(theirs, hash, eq, i, p);
          } else {
            StoreAtStop(before, hash, eq, t.value, p);
            MergeOne(mine, theirs, i, now, Contents());
          }
        } else {
          assert Items(theirs[..i + 1]) == Items(theirs[..i]) by { ItemsAppend(theirs[..i], t); }
        }
        i := i + 1;
      }
      assert theirs[..i] == theirs;
    }

    /** Removes the item equal to item, then takes the rest of its cluster out and puts it back.
        Nothing else is lost, the table never grows, and items only move back inside the cluster. */
    method Remove(item: T) returns (r: Option<T>, ghost i0: nat)
      requires Valid()
      modifies this, table
      ensures Valid() && table == old(table) && size == old(size)
      ensures r.None? ==> table[..] == old(table[..]) && forall y :: y in Contents() ==> !eq(y, item)
      ensures r.Some? ==> i0 < size && old(table[..])[i0] == r && eq(r.value, item)
      ensures r.Some? ==> Contents() == old(Contents()) - {r.value} && OnlyMovedBack(old(table[..]), table[..], i0)
      ensures itemCount == old(itemCount) - Used(r)
      ensures r.Some? && NoGap(old(table[..])[i0 := None], hash) ==> table[..] == old(table[..])[i0 := None]
    {
      LimitBelowSize(size);
      ghost var t0, array0, n := table[..], table, size;
      var i := Probe(item);
      i0 := i;
      StopDecides(t0, hash, eq, item, i0);
      r := table[i];
      if r.Some? {
        CountUpdate(t0, i0, None);
        ClearItem(t0, hash, eq, i0);
        itemCount := itemCount - 1;
        table[i] := None;
        assert table[..] == t0[i0 := None];
        ghost var e := EndOfCluster(t0, hash, i0);
        Cleanup(Next(i, size), t0, e, i0);
      }
    }

    /** The hashtable cleanup loop of Remove, from bucket start on. */
    method Cleanup(start: nat, ghost t0: Table<T>, ghost e: nat, ghost i0: nat)
      requires WellFormed() && itemCount <= Limit(size) && start < size
      requires e < size && i0 < size && e != i0 && start == Next(i0, size)
      requires NoGap(t0, hash) && Cleaning(t0, table[..], hash, e, i0, Dist(e, i0, size) + 1)
      modifies this, table
      ensures WellFormed() && table == old(table) && size == old(size)
      ensures itemCount == old(itemCount) && Contents() == old(Contents())
      ensures NoGap(table[..], hash) && |t0| == size && OnlyMovedBack(t0, table[..], i0)
      ensures NoGap(old(table[..]), hash) ==> table[..] == old(table[..])
    {
      hide NoGap, Cleaning, Items, Count, Lawful, IsSize, OnlyMovedBack, Distinct;
      var i: nat := start;
      ghost var c := Dist(e, i0, size) + 1;
      while table[i].Some?
        invariant table == old(table) && size == old(size) && i < size && WellFormed()
        invariant itemCount == old(itemCount) && Contents() == old(Contents())
        invariant Cleaning(t0, table[..], hash, e, i0, c)
        invariant NoGap(old(table[..]), hash) ==> table[..] == old(table[..])
        invariant c == if i == e then size else Dist(e, i, size)
        decreases size - c
      {
        CleaningStops(t0, table[..], hash, e, i0, c, i);
        PutBack(i, t0, e, i0);
        c := c + 1;
        i := Next(i, size);
      }
      CleaningStops(t0, table[..], hash, e, i0, c, i);
      CleaningEnds(t0, table[..], hash, e, i0);
    }

    /** One step of the cleanup: the item in bucket i is taken out and added again. */
    method PutBack(i: nat, ghost t0: Table<T>, ghost e: nat, ghost i0: nat)
      requires WellFormed() && i < size && table[i].Some? && itemCount <= Limit(size)
      requires e < size && NoGap(t0, hash) && Cleaning(t0, table[..], hash, e, i0, Dist(e, i, size))
      modifies this, table
      ensures WellFormed() && table == old(table) && size == old(size)
      ensures itemCount == old(itemCount) && Contents() == old(Contents())
      ensures Cleaning(t0, table[..], hash, e, i0, old(Dist(e, i, size)) + 1)
      ensures NoGap(old(table[..]), hash) ==> table[..] == old(table[..])
    {
      hide NoGap, Cleaning, Items, Count, Lawful, IsSize, IsStop;
      LimitBelowSize(size);
      LimitMonotone(size, LAST);
      ghost var t := table[..];
      var item := table[i].value;
      CountUpdate(t, i, None);
      ClearItem(t, hash, eq, i);
      NoneEqualLeft(t, hash, eq, i);
      itemCount := itemCount - 1;
      table[i] := None;
      assert table[..] == t[i := None];
      ghost var p;
      var r;
      r, p := Add(item);
      PutBackStop(t0, t, hash, eq, e, i0, i, p);
      CleaningStep(t0, t, hash, eq, e, i0, i, p);
      MoveKeeps(t, hash, eq, i, p);
      if NoGap(t, hash) {
        StaysPut(t, hash, eq, i, p);
      }
    }

    /** The item equal to item, if there is one. */
    method Get(item: T) returns (r: Option<T>)
      requires Valid()
      ensures r.Some? ==> r.value in Contents() && eq(r.value, item)
      ensures r.None? ==> forall y :: y in Contents() ==> !eq(y, item)
    {
      LimitBelowSize(size);
      var i := Probe(item);
      StopDecides(table[..], hash, eq, item, i);
      r := table[i];
      assert table[..][i] == r;
    }

    method Contains(item: T) returns (b: bool)
      requires Valid()
      ensures b <==> exists y :: y in Contents() && eq(y, item)
    {
      var r := Get(item);
      b := r.Some?;
    }

    method Clear()
      requires Valid()
      modifies this, table
      ensures Valid() && table == old(table) && size == old(size) && Contents() == {} && itemCount == 0
    {
      forall i | 0 <= i < table.Length { table[i] := None; }
      itemCount := 0;
      EmptyTable(table[..], hash, eq);
    }

    ghost predicate HasEqual(y: T)
      reads this, table
    {
      exists x :: x in Contents() && eq(x, y)
    }

    /** Whether any item of other has an equal here. */
    method Intersects(other: HashSet<T>) returns (b: bool)
      requires Valid() && other.WellFormed()
      ensures b <==> exists y :: y in other.Contents() && HasEqual(y)
    {
      ghost var t := other.table[..];
      var i := 0;
      while i < other.size
        invariant i <= other.size && t == other.table[..]
        invariant forall k :: 0 <= k < i && t[k].Some? ==> !HasEqual(t[k].value)
      {
        var x := other.table[i];
        i := i + 1;
        if x.Some? {
          var g := Get(x.value);
          if g.Some? {
            assert t[i - 1].value in other.Contents() && HasEqual(t[i - 1].value);
            return true;
          }
        }
      }
      return false;
    }

    /** Removes every item that has an equal in other. */
    method Minus(other: HashSet<T>)
      requires Valid() && other.WellFormed() && hash == other.hash && eq == other.eq
      requires other != this && other.table != table
      modifies this, table
      ensures Valid() && table == old(table)
      ensures forall y :: y in Contents() <==> y in old(Contents()) && !other.HasEqual(y)
    {
      ghost var t := other.table[..];
      var i := 0;
      while i < other.size
        invariant i <= other.size && t == other.table[..] && table == old(table) && Valid()
        invariant forall y :: y in Contents() <==>
                    y in old(Contents()) && forall k :: 0 <= k < i && t[k].Some? ==> !eq(t[k].value, y)
      {
        var x := other.table[i];
        i := i + 1;
        if x.Some? {
          ghost var before := Contents();
          ghost var t0 := table[..];
          var r;
          ghost var p;
          r, p := Remove(x.value);
          if r.Some? { EqualIsOnly(t0, hash, eq, x.value, p); }
        }
      }
      assert forall k :: 0 <= k < |t| && t[k].Some? ==> t[k].value in Items(t);
    }

    /** A set minus itself: the loop removes under its own cursor without going back. That empties the set exactly when
        every item beyond the first bucket is in its home bucket; else an item moves behind the cursor and one stays. */
    method MinusItself()
      requires Valid()
      modifies this, table
      ensures Valid() && table == old(table) && Contents() <= old(Contents())
      ensures Contents() == {} <==> old(AtHome(table[..], hash))
    {
      hide NoGap, Items, Count, Lawful, IsSize, OnlyMovedBack, Distinct, MovesNone, AtHome, Cleared;
      ghost var t0 := table[..];
      AtHomeIff(t0, hash);
      NoneCleared(t0, hash);
      var i := 0;
      while i < size
        invariant 0 <= i <= size && table == old(table) && Valid() && Contents() <= old(Contents())
        invariant if MovesNone(t0, hash, i) then table[..] == Cleared(t0, i)
                  else exists j :: 0 <= j < i && table[..][j].Some?
      {
        var x := table[i];
        ghost var t := table[..];
        i := i + 1;
        if x.Some? {
          var r;
          ghost var p;
          OwnEqual(t, hash, eq, i - 1);
          r, p := Remove(x.value);
          SelfFound(t, hash, eq, i - 1, r, p);
          RemovedAtCursor(t0, t, table[..], hash, eq, i - 1);
        } else {
          NoneAtCursor(t0, t, hash, i - 1);
        }
      }
      AllCleared(t0, table[..], hash);
    }

    /** Keeps exactly the items that have an equal in other, although it removes under its own cursor. */
    method Intersect(other: HashSet<T>)
      requires Valid() && other.Valid() && hash == other.hash && eq == other.eq
      requires other.table == table ==> other == this
      modifies this, table
      ensures Valid() && table == old(table)
      ensures forall y :: y in Contents() <==> y in old(Contents()) && old(other.HasEqual(y))
    {
      hide NoGap, Items, Count, Lawful, IsSize, OnlyMovedBack, Distinct;
      var i, n := 0, size;
      while i < n
        invariant 0 <= i <= n == size && table == old(table) && Valid()
        invariant Contents() <= old(Contents()) && (other == this ==> table[..] == old(table[..]))
        invariant forall y :: y in old(Contents()) && y !in Contents() ==> !other.HasEqual(y)
        invariant forall k :: 0 <= k < i && table[k].Some? ==> other.HasEqual(table[k].value)
        decreases itemCount, n - i
      {
        var t := table[i];
        var found := false;
        if t.Some? {
          found := other.Contains(t.value);
          OwnEqual(table[..], hash, eq, i);
        }
        if t.Some? && !found {
          ghost var t0 := table[..];
          var r;
          ghost var p;
          r, p := Remove(t.value);
          SelfFound(t0, hash, eq, i, r, p);
          BehindCursor(t0, table[..], i);
        } else {
          i := i + 1;
        }
      }
      AllItems(table[..]);
    }

    /** The item after previous in bucket order, or after the bucket where probing for it stops; the first one
        for None. */
    method Iterate(previous: Option<T>) returns (r: Option<T>)
      requires Valid()
      ensures previous.None? ==> r == Nth(Enumeration(table[..]), 0)
      ensures previous.Some? ==>
                exists p: nat :: IsStop(table[..], hash, eq, previous.value, p) && p < |table[..]|
                         && r == Nth(Enumeration(table[..]), Count(table[..][..p + 1]))
      ensures forall y | previous.Some? && y in Contents() && eq(y, previous.value) ::
                exists k :: 0 <= k < |Enumeration(table[..])| && Enumeration(table[..])[k] == y
                         && r == Nth(Enumeration(table[..]), k + 1)
    {
      hide NoGap, Items, Lawful, IsSize, Distinct, Count, Enumeration, IsStop;
      ghost var t := table[..];
      var i := 0;
      if previous.Some? {
        LimitBelowSize(size);
        i := Probe(previous.value);
        StopInTable(t, hash, eq, previous.value, i);
        forall y | y in Contents() && eq(y, previous.value)
          ensures Count(t[..i]) < |Enumeration(t)| && Enumeration(t)[Count(t[..i])] == y
          ensures Count(t[..i + 1]) == Count(t[..i]) + 1
        {
          StopEnumerated(t, hash, eq, previous.value, y, i);
        }
        i := i + 1;
      }
      ghost var from := i;
      r := None;
      while r.None? && i < size
        invariant from <= i <= size && t == table[..]
        invariant r.None? ==> Count(t[..i]) == Count(t[..from])
        invariant r.Some? ==> i > 0 && r == t[i - 1] && Count(t[..i - 1]) == Count(t[..from])
      {
        r := table[i];
        assert t[..i + 1] == t[..i] + [t[i]];
        CountAppend(t[..i], t[i]);
        i := i + 1;
      }
      EnumerationLength(t);
      CountNothing(t[..0]);
      if r.Some? { EnumerationAt(t, i - 1); } else { assert t[..i] == t; }
    }

    lemma MergeOne(mine: set<T>, theirs: Table<T>, i: nat, before: set<T>, now: set<T>)
      requires Lawful(hash, eq) && Distinct(theirs, eq) && i < |theirs| && theirs[i].Some?
      requires Merged(mine, theirs[..i], before)
      requires forall y :: y in now <==> y == theirs[i].value || (y in before && !eq(y, theirs[i].value))
      ensures Merged(mine, theirs[..i + 1], now)
    {
      var x := theirs[i].value;
      assert theirs[..i + 1] == theirs[..i] + [theirs[i]];
      ItemsAppend(theirs[..i], theirs[i]);
      forall y | y in Items(theirs[..i])
        ensures !eq(y, x)
      {
        var j :| 0 <= j < i && theirs[..i][j].Some? && theirs[..i][j].value == y;
        assert !eq(theirs[j].value, theirs[i].value);
      }
    }

    ghost predicate Merged(mine: set<T>, theirs: Table<T>, now: set<T>)
    {
      forall y :: y in now <==> y in Items(theirs) || (y in mine && forall x :: x in Items(theirs) ==> !eq(y, x))
    }
  }

  lemma OwnEqual<T(!new)>(t: Table<T>, hash: T -> nat, eq: (T, T) -> bool, i: nat)
    requires Lawful(hash, eq) && i < |t| && t[i].Some?
    ensures t[i].value in Items(t) && eq(t[i].value, t[i].value)
  {
  }

  lemma NoneCleared<T>(t: Table<T>, hash: T -> nat)
    ensures MovesNone(t, hash, 0) && Cleared(t, 0) == t
  {
  }

  /** Probing for a stored item stops where it is. */
  lemma OwnStop<T(!new)>(t: Table<T>, hash: T -> nat, eq: (T, T) -> bool, i: nat, p: nat)
    requires Lawful(hash, eq) && NoGap(t, hash) && Distinct(t, eq) && i < |t| && t[i].Some?
    requires IsStop(t, hash, eq, t[i].value, p)
    ensures p == i && t[p := t[i]] == t
  {
    StopDecides(t, hash, eq, t[i].value, p);
    assert t[i].value in Items(t) && eq(t[i].value, t[i].value);
  }

  /** Removing the item at the cursor either moves nothing or fills its bucket again. */
  lemma RemovedAtCursor<T(!new)>(t0: Table<T>, t: Table<T>, t': Table<T>, hash: T -> nat, eq: (T, T) -> bool, i: nat)
    requires |t0| == |t| == |t'| && i < |t| && t[i].Some?
    requires Lawful(hash, eq) && Distinct(t, eq) && NoGap(t, hash) && NoGap(t', hash)
    requires OnlyMovedBack(t, t', i) && Items(t') == Items(t) - {t[i].value}
    requires NoGap(t[i := None], hash) ==> t' == t[i := None]
    requires if MovesNone(t0, hash, i) then t == Cleared(t0, i) else exists j :: 0 <= j < i && t[j].Some?
    ensures if MovesNone(t0, hash, i + 1) then t' == Cleared(t0, i + 1) else exists j :: 0 <= j < i + 1 && t'[j].Some?
  {
    hide NoGap, Items, Lawful, OnlyMovedBack, Distinct, Cleared;
    ClearedOne(t0, i);
    MovesOne(t0, hash, i);
    if t'[i].None? {
      AllStayed(t, t', hash, eq, i);
      if !MovesNone(t0, hash, i) {
        var j :| 0 <= j < i && t[j].Some?;
        assert t'[j].Some?;
      }
    }
  }

  lemma MovesOne<T>(t: Table<T>, hash: T -> nat, i: nat)
    requires i < |t|
    ensures MovesNone(t, hash, i + 1) <==> MovesNone(t, hash, i) && (t[i].Some? ==> NoGap(Cleared(t, i + 1), hash))
  {
  }

  lemma NoneAtCursor<T>(t0: Table<T>, t: Table<T>, hash: T -> nat, i: nat)
    requires |t0| == |t| && i < |t| && t[i].None?
    requires if MovesNone(t0, hash, i) then t == Cleared(t0, i) else exists j :: 0 <= j < i && t[j].Some?
    ensures if MovesNone(t0, hash, i + 1) then t == Cleared(t0, i + 1) else exists j :: 0 <= j < i + 1 && t[j].Some?
  {
    hide NoGap, Cleared;
    ClearedOne(t0, i);
    MovesOne(t0, hash, i);
  }

  lemma AllCleared<T>(t0: Table<T>, t: Table<T>, hash: T -> nat)
    requires |t0| == |t|
    requires if MovesNone(t0, hash, |t|) then t == Cleared(t0, |t|) else exists j :: 0 <= j < |t| && t[j].Some?
    ensures Items(t) == {} <==> MovesNone(t0, hash, |t0|)
  {
    if !MovesNone(t0, hash, |t|) {
      var j :| 0 <= j < |t| && t[j].Some?;
      assert t[j].value in Items(t);
    }
  }

  /** Without an equal item anywhere, probing stops at an empty bucket. */
  lemma NothingEqual<T(!new)>(t: Table<T>, eq: (T, T) -> bool, x: T, p: nat)
    requires p < |t| && (t[p].None? || eq(t[p].value, x))
    requires forall y :: y in Items(t) ==> !eq(y, x)
    ensures t[p].None?
  {
    assert forall i | 0 <= i < |t| && t[i].Some? :: t[i].value in Items(t);
  }

  lemma NotLast(size: nat)
    requires IsSize(size) && Limit(size) + 1 <= Limit(LAST)
    ensures size <= SIZES[|SIZES| - 2]
  {
    var k :| 1 <= k < |SIZES| && SIZES[k] == size;
    assert SIZES[|SIZES| - 1] == LAST;
    if k < |SIZES| - 2 {
      SizesAscend(k, |SIZES| - 2);
    }
  }
}
