/** Linear probing on a sequence of buckets: the facts about one table that do not depend on who holds it. */
module ProbeTable {
  import opened Options

  type Table<T> = seq<Option<T>>

  /** Steps from bucket a forward to bucket b, wrapping at n. */
  function Dist(a: nat, b: nat, n: nat): nat
    requires a < n && b < n
  {
    if a <= b then b - a else b + n - a
  }

  /** The bucket after i, wrapping at n. */
  function Next(i: nat, n: nat): (j: nat)
    requires i < n
    ensures j < n && j == if i + 1 == n then 0 else i + 1
  {
    (i + 1) % n
  }

  function Home<T>(x: T, hash: T -> nat, n: nat): (i: nat)
    requires n > 0
    ensures i < n
  {
    hash(x) % n
  }

  /** eq is an equivalence and equal items hash alike. */
  ghost predicate Lawful<T(!new)>(hash: T -> nat, eq: (T, T) -> bool) {
    && (forall x :: eq(x, x))
    && (forall x, y :: eq(x, y) ==> eq(y, x))
    && (forall x, y, z :: eq(x, y) && eq(y, z) ==> eq(x, z))
    && (forall x, y :: eq(x, y) ==> hash(x) == hash(y))
  }

  /** Every item can be reached from its home bucket without crossing an empty one. */
  ghost predicate NoGap<T>(t: Table<T>, hash: T -> nat) {
    forall i, k | 0 <= i < |t| && 0 <= k < |t| && t[i].Some?
                  && Dist(Home(t[i].value, hash, |t|), k, |t|) < Dist(Home(t[i].value, hash, |t|), i, |t|)
      :: t[k].Some?
  }

  ghost predicate Distinct<T>(t: Table<T>, eq: (T, T) -> bool) {
    forall i, j :: 0 <= i < |t| && 0 <= j < |t| && i != j && t[i].Some? && t[j].Some? ==> !eq(t[i].value, t[j].value)
  }

  ghost function Items<T>(t: Table<T>): set<T> {
    set i | 0 <= i < |t| && t[i].Some? :: t[i].value
  }

  /** p is where probing for x stops: an empty bucket or an equal item, with neither before it. */
  ghost predicate IsStop<T>(t: Table<T>, hash: T -> nat, eq: (T, T) -> bool, x: T, p: nat) {
    && p < |t|
    && (t[p].None? || eq(t[p].value, x))
    && forall k | 0 <= k < |t| && Dist(Home(x, hash, |t|), k, |t|) < Dist(Home(x, hash, |t|), p, |t|)
         :: t[k].Some? && !eq(t[k].value, x)
  }

  // ----- Counting -----

  function Used<T>(b: Option<T>): nat {
    if b.Some? then 1 else 0
  }

  function Count<T>(t: Table<T>): nat {
    if t == [] then 0 else Used(t[0]) + Count(t[1..])
  }

  lemma {:induction false} CountUpdate<T>(t: Table<T>, i: nat, b: Option<T>)
    requires i < |t|
    ensures Count(t[i := b]) + Used(t[i]) == Count(t) + Used(b)
  {
    if i == 0 {
      assert t[i := b][1..] == t[1..];
    } else {
      assert t[i := b][1..] == t[1..][i - 1 := b];
      CountUpdate(t[1..], i - 1, b);
    }
  }

  lemma {:induction false} CountAppend<T>(t: Table<T>, b: Option<T>)
    ensures Count(t + [b]) == Count(t) + Used(b)
  {
    if t != [] {
      assert (t + [b])[1..] == t[1..] + [b];
      CountAppend(t[1..], b);
    }
  }

  lemma {:induction false} CountBelow<T>(t: Table<T>)
    ensures Count(t) <= |t|
    ensures Count(t) < |t| ==> exists e :: 0 <= e < |t| && t[e].None?
  {
    if t != [] {
      CountBelow(t[1..]);
      if Count(t) < |t| {
        if t[0].Some? {
          var e :| 0 <= e < |t[1..]| && t[1..][e].None?;
          assert t[e + 1].None?;
        } else {
          assert t[0].None?;
        }
      }
    }
  }

  lemma {:induction false} CountNone<T>(t: Table<T>)
    requires forall i :: 0 <= i < |t| ==> t[i].None?
    ensures Count(t) == 0
  {
    if t != [] {
      CountNone(t[1..]);
    }
  }

  lemma EmptyTable<T>(t: Table<T>, hash: T -> nat, eq: (T, T) -> bool)
    requires forall i :: 0 <= i < |t| ==> t[i].None?
    ensures NoGap(t, hash) && Distinct(t, eq) && Items(t) == {} && Count(t) == 0
  {
    CountNone(t);
  }

  /** The count is the number of items. */
  lemma {:induction false} CountIsSize<T(!new)>(t: Table<T>, hash: T -> nat, eq: (T, T) -> bool)
    requires Lawful(hash, eq) && Distinct(t, eq)
    ensures Count(t) == |Items(t)|
  {
    if t != [] {
      CountIsSize(t[1..], hash, eq);
      var rest := Items(t[1..]);
      if t[0].Some? {
        var x := t[0].value;
        assert x !in rest;
        assert Items(t) == rest + {x} by { ItemsHead(t); }
      } else {
        assert Items(t) == rest by { ItemsHead(t); }
      }
    }
  }

  lemma ItemsHead<T>(t: Table<T>)
    requires t != []
    ensures Items(t) == Items(t[1..]) + (if t[0].Some? then {t[0].value} else {})
  {
    forall x | x in Items(t)
      ensures x in Items(t[1..]) || (t[0].Some? && x == t[0].value)
    {
      var i :| 0 <= i < |t| && t[i].Some? && t[i].value == x;
      if i > 0 {
        assert t[1..][i - 1].value == x;
      }
    }
    forall x | x in Items(t[1..])
      ensures x in Items(t)
    {
      var i :| 0 <= i < |t[1..]| && t[1..][i].Some? && t[1..][i].value == x;
      assert t[i + 1].value == x;
    }
  }

  lemma ItemsAppend<T>(t: Table<T>, b: Option<T>)
    ensures Items(t + [b]) == Items(t) + (if b.Some? then {b.value} else {})
  {
    forall x | x in Items(t)
      ensures x in Items(t + [b])
    {
      var i :| 0 <= i < |t| && t[i].Some? && t[i].value == x;
      assert (t + [b])[i].value == x;
    }
    if b.Some? {
      assert (t + [b])[|t|].value == b.value;
    }
  }

  lemma {:induction false} CountPrefix<T>(t: Table<T>, i: nat)
    requires i <= |t|
    ensures Count(t[..i]) <= Count(t)
  {
    if i > 0 {
      assert t[..i][1..] == t[1..][..i - 1];
      CountPrefix(t[1..], i - 1);
    }
  }

  // ----- Looking up -----

  /** When probing stops at an empty bucket, no equal item is anywhere in the table. */
  lemma StopDecides<T(!new)>(t: Table<T>, hash: T -> nat, eq: (T, T) -> bool, x: T, p: nat)
    requires Lawful(hash, eq) && NoGap(t, hash) && IsStop(t, hash, eq, x, p)
    ensures t[p].None? ==> forall y :: y in Items(t) ==> !eq(y, x)
  {
    if t[p].None? {
      forall y | y in Items(t)
        ensures !eq(y, x)
      {
        var i :| 0 <= i < |t| && t[i].Some? && t[i].value == y;
      }
    }
  }

  /** Writing an item where its probing stops keeps the table reachable and its items distinct. */
  lemma StoreAtStop<T(!new)>(t: Table<T>, hash: T -> nat, eq: (T, T) -> bool, x: T, p: nat)
    requires Lawful(hash, eq) && NoGap(t, hash) && Distinct(t, eq) && IsStop(t, hash, eq, x, p)
    ensures NoGap(t[p := Some(x)], hash) && Distinct(t[p := Some(x)], eq)
    ensures x in Items(t[p := Some(x)])
    ensures forall y :: y in Items(t[p := Some(x)]) <==> y == x || (y in Items(t) && !eq(y, x))
  {
    var t' := t[p := Some(x)];
    StopDecides(t, hash, eq, x, p);
    assert NoGap(t', hash);
    StoreDistinct(t, hash, eq, x, p);
    StoreItems(t, hash, eq, x, p);
  }

  ghost predicate OnlyMatch<T>(t: Table<T>, eq: (T, T) -> bool, x: T, p: nat)
    requires p < |t|
  {
    forall j :: 0 <= j < |t| && j != p && t[j].Some? ==> !eq(t[j].value, x)
  }

  /** In a table of distinct items nothing but the stopping bucket can match. */
  lemma OnlyMatchAtStop<T(!new)>(t: Table<T>, hash: T -> nat, eq: (T, T) -> bool, x: T, p: nat)
    requires Lawful(hash, eq) && Distinct(t, eq) && IsStop(t, hash, eq, x, p)
    requires t[p].None? ==> forall y :: y in Items(t) ==> !eq(y, x)
    ensures OnlyMatch(t, eq, x, p)
  {
    forall j | 0 <= j < |t| && j != p && t[j].Some?
      ensures !eq(t[j].value, x)
    {
      if t[p].None? {
        assert t[j].value in Items(t);
      } else {
        assert !eq(t[j].value, t[p].value);
      }
    }
  }

  lemma StoreDistinct<T(!new)>(t: Table<T>, hash: T -> nat, eq: (T, T) -> bool, x: T, p: nat)
    requires Lawful(hash, eq) && Distinct(t, eq) && IsStop(t, hash, eq, x, p)
    requires t[p].None? ==> forall y :: y in Items(t) ==> !eq(y, x)
    ensures Distinct(t[p := Some(x)], eq)
  {
    OnlyMatchAtStop(t, hash, eq, x, p);
  }

  lemma StoreItems<T(!new)>(t: Table<T>, hash: T -> nat, eq: (T, T) -> bool, x: T, p: nat)
    requires Lawful(hash, eq) && Distinct(t, eq) && IsStop(t, hash, eq, x, p)
    requires t[p].None? ==> forall y :: y in Items(t) ==> !eq(y, x)
    ensures x in Items(t[p := Some(x)])
    ensures forall y :: y in Items(t[p := Some(x)]) <==> y == x || (y in Items(t) && !eq(y, x))
  {
    var t' := t[p := Some(x)];
    OnlyMatchAtStop(t, hash, eq, x, p);
    forall y
      ensures y in Items(t') <==> y == x || (y in Items(t) && !eq(y, x))
    {
      assert t'[p].value == x;
      if y in Items(t') && y != x {
        var i :| 0 <= i < |t'| && t'[i].Some? && t'[i].value == y;
        assert t[i].value == y;
      }
      if y in Items(t) && !eq(y, x) {
        var i :| 0 <= i < |t| && t[i].Some? && t[i].value == y;
        assert t'[i].value == y;
      }
    }
  }

  // ----- Removing -----
  //
  // Measured from an empty bucket e, ranks Dist(e, k) turn the ring into a line: no probe path crosses e.

  lemma PathsFromEmpty<T>(t: Table<T>, hash: T -> nat, e: nat, j: nat)
    requires NoGap(t, hash) && e < |t| && t[e].None? && j < |t| && t[j].Some?
    ensures var home := Home(t[j].value, hash, |t|);
            && Dist(e, home, |t|) <= Dist(e, j, |t|)
            && forall k | 0 <= k < |t| && Dist(e, home, |t|) <= Dist(e, k, |t|) <= Dist(e, j, |t|) :: t[k].Some?
  {
    var n, home := |t|, Home(t[j].value, hash, |t|);
    assert !(Dist(home, e, n) < Dist(home, j, n));
    forall k | 0 <= k < n && Dist(e, home, n) <= Dist(e, k, n) <= Dist(e, j, n)
      ensures t[k].Some?
    {
      assert k == j || Dist(home, k, n) < Dist(home, j, n);
    }
  }

  /** The item in bucket j lies after its home on the line from e, with no empty bucket between. */
  ghost predicate WellPlaced<T>(t: Table<T>, hash: T -> nat, e: nat, j: nat)
    requires e < |t| && j < |t| && t[j].Some?
  {
    var home := Home(t[j].value, hash, |t|);
    && Dist(e, home, |t|) <= Dist(e, j, |t|)
    && forall k | 0 <= k < |t| && Dist(e, home, |t|) <= Dist(e, k, |t|) < Dist(e, j, |t|) :: t[k].Some?
  }

  /** Every item with rank below c is well placed along the line from e. */
  ghost predicate Placed<T>(t: Table<T>, hash: T -> nat, e: nat, c: nat)
    requires e < |t|
  {
    forall j | 0 <= j < |t| && t[j].Some? && Dist(e, j, |t|) < c :: WellPlaced(t, hash, e, j)
  }

  /** What is in bucket k now was there before, or moved back from further along the cluster that starts at i0. */
  ghost predicate Came<T>(t0: Table<T>, t: Table<T>, i0: nat, k: nat)
    requires |t| == |t0| && i0 < |t| && k < |t|
  {
    t[k] == t0[k] || exists j :: 0 <= j < |t0| && t0[j] == t[k] && Dist(i0, k, |t|) < Dist(i0, j, |t|)
  }

  ghost predicate OnlyMovedBack<T>(t0: Table<T>, t: Table<T>, i0: nat)
    requires |t| == |t0| && i0 < |t|
  {
    forall k | 0 <= k < |t| && t[k].Some? :: Came(t0, t, i0, k)
  }

  /** Removal under way: bucket i0 of t0 was emptied, and the buckets of its cluster up to rank c
      have been taken out and put back. */
  ghost predicate Cleaning<T>(t0: Table<T>, t: Table<T>, hash: T -> nat, e: nat, i0: nat, c: nat) {
    && |t| == |t0| && e < |t| && i0 < |t| && i0 != e
    && t0[e].None? && t[e].None?
    && Dist(e, i0, |t|) < c <= |t|
    && (forall k | 0 <= k < |t| && Dist(e, k, |t|) < Dist(e, i0, |t|) :: t[k] == t0[k])
    && (forall k | 0 <= k < |t| && Dist(e, k, |t|) >= c :: t[k].Some? && t[k] == t0[k])
    && Placed(t, hash, e, c)
    && OnlyMovedBack(t0, t, i0)
  }

  lemma CleaningStarts<T>(t0: Table<T>, hash: T -> nat, e: nat, i0: nat)
    requires NoGap(t0, hash) && e < |t0| && i0 < |t0| && t0[e].None? && t0[i0].Some?
    requires forall k | 0 <= k < |t0| && Dist(e, k, |t0|) >= Dist(e, i0, |t0|) :: t0[k].Some?
    ensures i0 != e && Cleaning(t0, t0[i0 := None], hash, e, i0, Dist(e, i0, |t0|) + 1)
  {
    var t := t0[i0 := None];
    forall j | 0 <= j < |t| && t[j].Some? && Dist(e, j, |t|) < Dist(e, i0, |t|) + 1
      ensures WellPlaced(t, hash, e, j)
    {
      PathsFromEmpty(t0, hash, e, j);
    }
  }

  /** Where an item of the cluster, taken out of bucket cur, stops when it is put back. */
  lemma PutBackStop<T(!new)>(t0: Table<T>, t: Table<T>, hash: T -> nat, eq: (T, T) -> bool, e: nat, i0: nat, cur: nat,
                             p: nat)
    requires Lawful(hash, eq) && NoGap(t0, hash) && Distinct(t, eq)
    requires cur < |t| && e < |t| && Cleaning(t0, t, hash, e, i0, Dist(e, cur, |t|))
    requires IsStop(t[cur := None], hash, eq, t[cur].value, p)
    ensures p < |t| && t[cur := None][p].None?
    ensures Dist(e, i0, |t|) <= Dist(e, p, |t|) <= Dist(e, cur, |t|)
    ensures Dist(e, Home(t[cur].value, hash, |t|), |t|) <= Dist(e, p, |t|)
    ensures forall k | 0 <= k < |t| && Dist(e, Home(t[cur].value, hash, |t|), |t|) <= Dist(e, k, |t|) < Dist(e, p, |t|)
              :: t[k].Some? && k != cur
  {
    hide NoGap, Placed, OnlyMovedBack;
    var n, x, t1 := |t|, t[cur].value, t[cur := None];
    var home := Home(x, hash, n);
    assert t0[cur] == t[cur];
    PathsFromEmpty(t0, hash, e, cur);
    assert !(Dist(home, cur, n) < Dist(home, p, n));
    assert Dist(e, p, n) <= Dist(e, cur, n);
    assert Dist(e, home, n) <= Dist(e, p, n);
    assert forall j | 0 <= j < n && j != cur && t[j].Some? :: !eq(t[j].value, x);
    assert t0[p].Some?;
    forall k | 0 <= k < n && Dist(e, home, n) <= Dist(e, k, n) < Dist(e, p, n)
      ensures t[k].Some? && k != cur
    {
      assert Dist(home, k, n) < Dist(home, p, n);
      assert t1[k].Some?;
    }
  }

  /** One step of the cleanup. */
  lemma CleaningStep<T(!new)>(t0: Table<T>, t: Table<T>, hash: T -> nat, eq: (T, T) -> bool, e: nat, i0: nat, cur: nat,
                              p: nat)
    requires Lawful(hash, eq) && NoGap(t0, hash) && Distinct(t, eq)
    requires cur < |t| && e < |t| && Cleaning(t0, t, hash, e, i0, Dist(e, cur, |t|))
    requires IsStop(t[cur := None], hash, eq, t[cur].value, p)
    ensures Cleaning(t0, t[cur := None][p := t[cur]], hash, e, i0, Dist(e, cur, |t|) + 1)
  {
    hide Placed, OnlyMovedBack, NoGap, IsStop, Distinct, Lawful;
    var n, c := |t|, Dist(e, cur, |t|);
    PutBackStop(t0, t, hash, eq, e, i0, cur, p);
    StepPlaced(t0, t, hash, eq, e, i0, cur, p);
    assert t0[cur] == t[cur];
    StepMovedBack(t0, t, i0, cur, p, e);
  }

  lemma StepMovedBack<T>(t0: Table<T>, t: Table<T>, i0: nat, cur: nat, p: nat, e: nat)
    requires |t| == |t0| && i0 < |t| && cur < |t| && p < |t| && e < |t|
    requires OnlyMovedBack(t0, t, i0) && t[cur] == t0[cur]
    requires Dist(e, i0, |t|) <= Dist(e, p, |t|) <= Dist(e, cur, |t|)
    ensures OnlyMovedBack(t0, t[cur := None][p := t[cur]], i0)
  {
    var n, t2 := |t|, t[cur := None][p := t[cur]];
    forall k | 0 <= k < n && t2[k].Some?
      ensures Came(t0, t2, i0, k)
    {
      if k == p {
        assert t0[cur] == t2[p];
        assert p == cur || Dist(i0, p, n) < Dist(i0, cur, n);
      } else {
        assert t2[k] == t[k];
        assert Came(t0, t, i0, k);
      }
    }
  }

  lemma StepPlaced<T(!new)>(t0: Table<T>, t: Table<T>, hash: T -> nat, eq: (T, T) -> bool, e: nat, i0: nat, cur: nat,
                            p: nat)
    requires Lawful(hash, eq) && NoGap(t0, hash) && Distinct(t, eq)
    requires cur < |t| && e < |t| && Cleaning(t0, t, hash, e, i0, Dist(e, cur, |t|))
    requires IsStop(t[cur := None], hash, eq, t[cur].value, p)
    ensures Placed(t[cur := None][p := t[cur]], hash, e, Dist(e, cur, |t|) + 1)
  {
    hide NoGap, IsStop, Distinct, Lawful, OnlyMovedBack, WellPlaced;
    var n, c := |t|, Dist(e, cur, |t|);
    PutBackStop(t0, t, hash, eq, e, i0, cur, p);
    var t2 := t[cur := None][p := t[cur]];
    forall j | 0 <= j < n && t2[j].Some? && Dist(e, j, n) < c + 1
      ensures WellPlaced(t2, hash, e, j)
    {
      if j != p {
        assert j != cur && t2[j] == t[j] && Dist(e, j, n) < c;
        StaysPlaced(t, t2, hash, e, j);
      } else {
        PlacedThere(t, t2, hash, e, cur, p);
      }
    }
  }

  lemma PlacedThere<T>(t: Table<T>, t2: Table<T>, hash: T -> nat, e: nat, cur: nat, p: nat)
    requires |t2| == |t| && e < |t| && p < |t| && cur < |t| && t[cur].Some? && t2[p] == t[cur]
    requires Dist(e, Home(t[cur].value, hash, |t|), |t|) <= Dist(e, p, |t|)
    requires forall k | 0 <= k < |t| && Dist(e, Home(t[cur].value, hash, |t|), |t|) <= Dist(e, k, |t|) < Dist(e, p, |t|)
               :: t2[k].Some?
    ensures WellPlaced(t2, hash, e, p)
  {
  }

  lemma StaysPlaced<T>(t: Table<T>, t2: Table<T>, hash: T -> nat, e: nat, j: nat)
    requires |t2| == |t| && e < |t| && j < |t| && t[j].Some? && t2[j] == t[j] && WellPlaced(t, hash, e, j)
    requires forall k | 0 <= k < |t| && Dist(e, k, |t|) < Dist(e, j, |t|) && t[k].Some? :: t2[k].Some?
    ensures WellPlaced(t2, hash, e, j)
  {
  }

  /** The cleanup reaches an empty bucket exactly at the end of the cluster. */
  lemma CleaningStops<T>(t0: Table<T>, t: Table<T>, hash: T -> nat, e: nat, i0: nat, c: nat, i: nat)
    requires Cleaning(t0, t, hash, e, i0, c) && i < |t|
    requires c == if i == e then |t| else Dist(e, i, |t|)
    ensures e < |t0| == |t| && c <= |t|
    ensures t[i].None? ==> c == |t|
    ensures t[i].Some? ==> i != e && c == Dist(e, i, |t|)
  {
  }

  lemma CleaningEnds<T>(t0: Table<T>, t: Table<T>, hash: T -> nat, e: nat, i0: nat)
    requires Cleaning(t0, t, hash, e, i0, |t|)
    ensures NoGap(t, hash) && |t| == |t0| && i0 < |t| && OnlyMovedBack(t0, t, i0)
  {
    var n := |t|;
    forall i, k | 0 <= i < n && 0 <= k < n && t[i].Some?
                  && Dist(Home(t[i].value, hash, n), k, n) < Dist(Home(t[i].value, hash, n), i, n)
      ensures t[k].Some?
    {
      var home := Home(t[i].value, hash, n);
      assert WellPlaced(t, hash, e, i);
      assert Dist(e, home, n) <= Dist(e, k, n) < Dist(e, i, n);
    }
  }

  /** Taking an item out of one bucket and storing it in an empty one changes neither the items nor their number. */
  lemma MoveKeeps<T(!new)>(t: Table<T>, hash: T -> nat, eq: (T, T) -> bool, cur: nat, p: nat)
    requires Lawful(hash, eq) && cur < |t| && t[cur].Some? && p < |t| && t[cur := None][p].None? && Distinct(t, eq)
    ensures var t2 := t[cur := None][p := t[cur]];
            Items(t2) == Items(t) && Distinct(t2, eq)
  {
    var t2 := t[cur := None][p := t[cur]];
    forall y | y in Items(t)
      ensures y in Items(t2)
    {
      var i :| 0 <= i < |t| && t[i].Some? && t[i].value == y;
      assert t2[if i == cur then p else i].value == y;
    }
    forall y | y in Items(t2)
      ensures y in Items(t)
    {
      var i :| 0 <= i < |t2| && t2[i].Some? && t2[i].value == y;
      assert t[if i == p then cur else i].value == y;
    }
  }

  /** Emptying the bucket of an item removes that item and no other. */
  lemma ClearItem<T(!new)>(t: Table<T>, hash: T -> nat, eq: (T, T) -> bool, i: nat)
    requires Lawful(hash, eq) && Distinct(t, eq) && i < |t| && t[i].Some?
    ensures Items(t[i := None]) == Items(t) - {t[i].value} && Distinct(t[i := None], eq)
  {
    var t1 := t[i := None];
    forall y | y in Items(t) - {t[i].value}
      ensures y in Items(t1)
    {
      var j :| 0 <= j < |t| && t[j].Some? && t[j].value == y;
      assert t1[j].value == y;
    }
    forall y | y in Items(t1)
      ensures y in Items(t) - {t[i].value}
    {
      var j :| 0 <= j < |t1| && t1[j].Some? && t1[j].value == y;
      assert t[j].value == y && !eq(t[j].value, t[i].value);
    }
  }

  lemma NoneEqualLeft<T(!new)>(t: Table<T>, hash: T -> nat, eq: (T, T) -> bool, i: nat)
    requires Lawful(hash, eq) && Distinct(t, eq) && i < |t| && t[i].Some?
    ensures forall y :: y in Items(t[i := None]) ==> !eq(y, t[i].value)
  {
  }

  /** The first empty bucket after i. */
  lemma {:induction false} FirstEmpty<T>(t: Table<T>, i: nat, from: nat) returns (e: nat)
    requires i < |t| && from < |t|
    requires exists k :: 0 <= k < |t| && t[k].None?
    requires forall k | 0 <= k < |t| && Dist(i, k, |t|) < Dist(i, from, |t|) :: t[k].Some?
    ensures e < |t| && t[e].None? && forall k | 0 <= k < |t| && Dist(i, k, |t|) < Dist(i, e, |t|) :: t[k].Some?
    decreases |t| - Dist(i, from, |t|)
  {
    if t[from].None? {
      e := from;
    } else {
      var next := Next(from, |t|);
      forall k | 0 <= k < |t| && Dist(i, k, |t|) <= Dist(i, from, |t|)
        ensures t[k].Some?
      {
        assert k == from || Dist(i, k, |t|) < Dist(i, from, |t|);
      }
      assert next != i;
      e := FirstEmpty(t, i, next);
    }
  }

  /** The empty bucket that ends the cluster of i0, and the start of the cleanup. */
  lemma EndOfCluster<T>(t0: Table<T>, hash: T -> nat, i0: nat) returns (e: nat)
    requires NoGap(t0, hash) && i0 < |t0| && t0[i0].Some? && Count(t0) < |t0|
    ensures e < |t0| && e != i0 && Cleaning(t0, t0[i0 := None], hash, e, i0, Dist(e, i0, |t0|) + 1)
  {
    hide NoGap, Cleaning, Count;
    CountBelow(t0);
    e := FirstEmpty(t0, i0, i0);
    CleaningStarts(t0, hash, e, i0);
  }

  /** The bucket an equal item was found in is the only one with an item equal to x. */
  lemma EqualIsOnly<T(!new)>(t: Table<T>, hash: T -> nat, eq: (T, T) -> bool, x: T, p: nat)
    requires Lawful(hash, eq) && Distinct(t, eq) && p < |t| && t[p].Some? && eq(t[p].value, x)
    ensures forall y :: y in Items(t) && eq(x, y) ==> y == t[p].value
    ensures eq(x, t[p].value)
  {
    forall y | y in Items(t) && eq(x, y)
      ensures y == t[p].value
    {
      var i :| 0 <= i < |t| && t[i].Some? && t[i].value == y;
      assert eq(t[p].value, t[i].value);
    }
  }

  /** Removing an item of the table finds that very item. */
  lemma SelfFound<T(!new)>(t: Table<T>, hash: T -> nat, eq: (T, T) -> bool, i: nat, r: Option<T>, p: nat)
    requires Lawful(hash, eq) && Distinct(t, eq) && i < |t| && t[i].Some?
    requires if r.None? then forall y :: y in Items(t) ==> !eq(y, t[i].value)
             else p < |t| && t[p] == r && eq(r.value, t[i].value)
    ensures r == t[i] && p == i
  {
    assert t[i].value in Items(t);
  }

  /** Buckets behind the cursor only hold what was behind it before. */
  lemma BehindCursor<T>(t0: Table<T>, t: Table<T>, i: nat)
    requires |t| == |t0| && i < |t| && OnlyMovedBack(t0, t, i)
    ensures forall k :: 0 <= k < i && t[k].Some? ==> exists j :: 0 <= j < i && t0[j] == t[k]
  {
    forall k | 0 <= k < i && t[k].Some?
      ensures exists j :: 0 <= j < i && t0[j] == t[k]
    {
      assert Came(t0, t, i, k);
    }
  }

  /** An item that is reachable where it is goes back there. */
  lemma StaysPut<T(!new)>(t: Table<T>, hash: T -> nat, eq: (T, T) -> bool, i: nat, p: nat)
    requires Lawful(hash, eq) && NoGap(t, hash) && Distinct(t, eq) && i < |t| && t[i].Some?
    requires IsStop(t[i := None], hash, eq, t[i].value, p)
    ensures p == i
  {
    var home := Home(t[i].value, hash, |t|);
    assert !(Dist(home, p, |t|) < Dist(home, i, |t|));
    assert !(Dist(home, i, |t|) < Dist(home, p, |t|));
  }

  /** If nothing has moved into the emptied bucket, nothing has moved at all. */
  lemma {:induction false} NothingMoved<T(!new)>(t0: Table<T>, t: Table<T>, hash: T -> nat, eq: (T, T) -> bool,
                                                 i0: nat, k: nat)
    requires |t| == |t0| && i0 < |t| && k < |t| && t0[i0].Some? && t[i0].None? && k != i0
    requires Lawful(hash, eq) && Distinct(t0, eq) && NoGap(t0, hash) && NoGap(t, hash)
    requires OnlyMovedBack(t0, t, i0) && Items(t) == Items(t0) - {t0[i0].value}
    ensures t[k] == t0[k]
    decreases Dist(i0, k, |t|)
  {
    hide NoGap, Items, OnlyMovedBack, Lawful, Distinct;
    if t0[k].Some? {
      var m := FoundAt(t0, t, hash, eq, i0, k);
      if m != k {
        NothingMoved(t0, t, hash, eq, i0, m);
        DifferentItems(t0, hash, eq, m, k);
      }
    } else if t[k].Some? {
      var j := CameFrom(t0, t, i0, k);
      PathCrosses(t0, t, hash, i0, k, j);
    }
  }

  /** Where the item of bucket k is now. */
  lemma FoundAt<T(!new)>(t0: Table<T>, t: Table<T>, hash: T -> nat, eq: (T, T) -> bool, i0: nat, k: nat)
    returns (m: nat)
    requires |t| == |t0| && i0 < |t| && k < |t| && k != i0 && t0[k].Some? && t0[i0].Some? && t[i0].None?
    requires Distinct(t0, eq) && Lawful(hash, eq)
    requires OnlyMovedBack(t0, t, i0) && Items(t) == Items(t0) - {t0[i0].value}
    ensures m < |t| && m != i0 && t[m] == t0[k] && (m == k || Dist(i0, m, |t|) < Dist(i0, k, |t|))
  {
    assert eq(t0[k].value, t0[k].value) && !eq(t0[k].value, t0[i0].value);
    assert t0[k].value in Items(t);
    m :| 0 <= m < |t| && t[m].Some? && t[m].value == t0[k].value;
    assert Came(t0, t, i0, m);
  }

  lemma DifferentItems<T(!new)>(t: Table<T>, hash: T -> nat, eq: (T, T) -> bool, m: nat, k: nat)
    requires m < |t| && k < |t| && m != k && t[m].Some? && Lawful(hash, eq) && Distinct(t, eq)
    ensures t[m] != t[k]
  {
  }

  lemma CameFrom<T>(t0: Table<T>, t: Table<T>, i0: nat, k: nat) returns (j: nat)
    requires |t| == |t0| && i0 < |t| && k < |t| && t[k].Some? && t0[k].None? && OnlyMovedBack(t0, t, i0)
    ensures j < |t| && t0[j] == t[k] && Dist(i0, k, |t|) < Dist(i0, j, |t|)
  {
    assert Came(t0, t, i0, k);
    j :| 0 <= j < |t0| && t0[j] == t[k] && Dist(i0, k, |t|) < Dist(i0, j, |t|);
  }

  /** An item that has moved back to bucket k, not across the emptied one, had bucket k before it. */
  lemma PathCrosses<T>(t0: Table<T>, t: Table<T>, hash: T -> nat, i0: nat, k: nat, j: nat)
    requires |t| == |t0| && i0 < |t| && k < |t| && j < |t| && t[i0].None? && k != i0
    requires NoGap(t0, hash) && NoGap(t, hash) && t[k].Some? && t0[j] == t[k]
    requires Dist(i0, k, |t|) < Dist(i0, j, |t|)
    ensures t0[k].Some?
  {
    var n := |t|;
    var home := Home(t[k].value, hash, n);
    assert !(Dist(home, i0, n) < Dist(home, k, n));
    assert Dist(home, k, n) < Dist(home, j, n);
  }

  lemma AllStayed<T(!new)>(t0: Table<T>, t: Table<T>, hash: T -> nat, eq: (T, T) -> bool, i0: nat)
    requires |t| == |t0| && i0 < |t| && t0[i0].Some? && t[i0].None?
    requires Lawful(hash, eq) && Distinct(t0, eq) && NoGap(t0, hash) && NoGap(t, hash)
    requires OnlyMovedBack(t0, t, i0) && Items(t) == Items(t0) - {t0[i0].value}
    ensures t == t0[i0 := None]
  {
    hide NoGap, Items, OnlyMovedBack, Lawful, Distinct;
    forall k | 0 <= k < |t|
      ensures t[k] == t0[i0 := None][k]
    {
      if k != i0 {
        NothingMoved(t0, t, hash, eq, i0, k);
      }
    }
  }

  // ----- Emptying a table bucket by bucket -----

  /** The table without what its first i buckets hold. */
  function Cleared<T>(t: Table<T>, i: nat): (r: Table<T>)
    requires i <= |t|
    ensures |r| == |t|
  {
    seq(i, _ => None) + t[i..]
  }

  lemma ClearedOne<T>(t: Table<T>, i: nat)
    requires i < |t|
    ensures Cleared(t, i)[i] == t[i] && Cleared(t, i + 1) == Cleared(t, i)[i := None]
    ensures t[i].None? ==> Cleared(t, i + 1) == Cleared(t, i)
  {
  }

  /** Taking the items of the first i buckets out one by one, in bucket order, moves none of the others. */
  ghost predicate MovesNone<T>(t: Table<T>, hash: T -> nat, i: nat)
    requires i <= |t|
  {
    forall c | 0 <= c < i && t[c].Some? :: NoGap(Cleared(t, c + 1), hash)
  }

  /** Every item beyond the first bucket is in its home bucket. */
  ghost predicate AtHome<T>(t: Table<T>, hash: T -> nat) {
    forall i | 1 <= i < |t| && t[i].Some? :: Home(t[i].value, hash, |t|) == i
  }

  lemma AtHomeIff<T>(t: Table<T>, hash: T -> nat)
    requires NoGap(t, hash)
    ensures MovesNone(t, hash, |t|) <==> AtHome(t, hash)
  {
    hide NoGap, Cleared;
    if AtHome(t, hash) {
      forall c | 0 <= c < |t| && t[c].Some?
        ensures NoGap(Cleared(t, c + 1), hash)
      {
        HomeStays(t, hash, c + 1);
      }
    } else {
      var i :| 1 <= i < |t| && t[i].Some? && Home(t[i].value, hash, |t|) != i;
      var c := DisplacedMoves(t, hash, i);
    }
  }

  lemma HomeStays<T>(t: Table<T>, hash: T -> nat, c: nat)
    requires AtHome(t, hash) && 1 <= c <= |t|
    ensures NoGap(Cleared(t, c), hash)
  {
    hide Home, Cleared;
    var t' := Cleared(t, c);
    forall i | 0 <= i < |t'| && t'[i].Some?
      ensures Home(t'[i].value, hash, |t'|) == i
    {
      ClearedAt(t, c, i);
    }
  }

  lemma ClearedAt<T>(t: Table<T>, c: nat, i: nat)
    requires c <= |t| && i < |t|
    ensures |Cleared(t, c)| == |t| && Cleared(t, c)[i] == if i < c then None else t[i]
  {
  }

  /** An item away from its home bucket is cut off by removing one of those before it. */
  lemma DisplacedMoves<T>(t: Table<T>, hash: T -> nat, i: nat) returns (c: nat)
    requires NoGap(t, hash) && 1 <= i < |t| && t[i].Some? && Home(t[i].value, hash, |t|) != i
    ensures c < |t| && t[c].Some? && !NoGap(Cleared(t, c + 1), hash)
  {
    hide Home, Cleared;
    var home := Home(t[i].value, hash, |t|);
    assert home < |t| by { HomeBelow(t[i].value, hash, |t|); }
    c := if home < i then home else 0;
    assert Dist(home, c, |t|) < Dist(home, i, |t|);
    ClearedAt(t, c + 1, i);
    ClearedAt(t, c + 1, c);
    CutOff(Cleared(t, c + 1), hash, i, c);
  }

  lemma HomeBelow<T>(x: T, hash: T -> nat, n: nat)
    requires n > 0
    ensures Home(x, hash, n) < n
  {
  }

  lemma CutOff<T>(t: Table<T>, hash: T -> nat, i: nat, c: nat)
    requires i < |t| && c < |t| && t[i].Some? && t[c].None?
    requires Dist(Home(t[i].value, hash, |t|), c, |t|) < Dist(Home(t[i].value, hash, |t|), i, |t|)
    ensures !NoGap(t, hash)
  {
  }

  /** Two items with the first bucket for their home. */
  lemma NotAtHome(hash: nat -> nat)
    requires forall x :: hash(x) == 0
    ensures var t: Table<nat> := [Some(1), Some(2), None];
      NoGap(t, hash) && Distinct(t, (x, y) => x == y) && Lawful(hash, (x, y) => x == y) && !AtHome(t, hash)
  {
    var t: Table<nat> := [Some(1), Some(2), None];
    assert t[1].Some? && Home(t[1].value, hash, |t|) == 0;
  }

  lemma AllItems<T>(t: Table<T>)
    ensures forall y :: y in Items(t) ==> exists k :: 0 <= k < |t| && t[k] == Some(y)
  {
  }

  // ----- Enumerating -----

  /** The items in bucket order. */
  function Enumeration<T>(t: Table<T>): seq<T> {
    if t == [] then [] else (if t[0].Some? then [t[0].value] else []) + Enumeration(t[1..])
  }

  function Nth<T>(s: seq<T>, k: nat): Option<T> {
    if k < |s| then Some(s[k]) else None
  }

  lemma {:induction false} EnumerationLength<T>(t: Table<T>)
    ensures |Enumeration(t)| == Count(t)
  {
    if t != [] {
      EnumerationLength(t[1..]);
    }
  }

  lemma {:induction false} EnumerationAt<T>(t: Table<T>, q: nat)
    requires q < |t| && t[q].Some?
    ensures Count(t[..q]) < |Enumeration(t)| && Enumeration(t)[Count(t[..q])] == t[q].value
  {
    if q > 0 {
      EnumerationAt(t[1..], q - 1);
      assert t[..q][1..] == t[1..][..q - 1];
    }
  }

  /** The enumeration holds every item, and none twice. */
  lemma {:induction false} EnumerationComplete<T(!new)>(t: Table<T>, hash: T -> nat, eq: (T, T) -> bool)
    requires Lawful(hash, eq) && Distinct(t, eq)
    ensures forall y :: y in Enumeration(t) <==> y in Items(t)
    ensures forall i, j :: 0 <= i < j < |Enumeration(t)| ==> Enumeration(t)[i] != Enumeration(t)[j]
  {
    if t != [] {
      EnumerationComplete(t[1..], hash, eq);
      ItemsHead(t);
      if t[0].Some? {
        assert t[0].value !in Items(t[1..]);
      }
    }
  }

  lemma SameStored<T(!new)>(t: Table<T>, hash: T -> nat, eq: (T, T) -> bool, x: T, y: T, q: nat)
    requires Lawful(hash, eq) && Distinct(t, eq) && q < |t| && t[q].Some? && eq(t[q].value, x)
    requires y in Items(t) && eq(y, x)
    ensures t[q].value == y
  {
    var i :| 0 <= i < |t| && t[i].Some? && t[i].value == y;
    assert eq(t[q].value, t[i].value);
  }

  lemma StopInTable<T>(t: Table<T>, hash: T -> nat, eq: (T, T) -> bool, x: T, q: nat)
    requires IsStop(t, hash, eq, x, q)
    ensures q < |t|
  {
  }

  lemma CountNothing<T>(t: Table<T>)
    requires t == []
    ensures Count(t) == 0
  {
  }

  /** The place in the enumeration of the stored item that probing for x stops at. */
  lemma StopEnumerated<T(!new)>(t: Table<T>, hash: T -> nat, eq: (T, T) -> bool, x: T, y: T, q: nat)
    requires Lawful(hash, eq) && NoGap(t, hash) && Distinct(t, eq) && IsStop(t, hash, eq, x, q)
    requires y in Items(t) && eq(y, x)
    ensures q < |t| && Count(t[..q]) < |Enumeration(t)| && Enumeration(t)[Count(t[..q])] == y
    ensures Count(t[..q + 1]) == Count(t[..q]) + 1
  {
    hide NoGap, Count, Enumeration;
    StopDecides(t, hash, eq, x, q);
    SameStored(t, hash, eq, x, y, q);
    EnumerationAt(t, q);
    assert t[..q + 1] == t[..q] + [t[q]];
    CountAppend(t[..q], t[q]);
  }
}
