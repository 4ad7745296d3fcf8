/** The cyclic order in which the allocator walks its range, on integers. */
module Rings {
  import opened Common

  // The addresses lo..hi, with lo following hi.
  datatype Ring = Ring(lo: int, hi: int)
  {
    predicate Valid()
    {
      lo <= hi
    }

    predicate Has(x: int)
    {
      lo <= x <= hi
    }

    function Size(): (r: int)
    {
      hi - lo + 1
    }

    function Next(x: int): (r: int)
    {
      if x == hi then lo else x + 1
    }

    // The number of steps from x forward to y.
    function Dist(x: int, y: int): (r: int)
    {
      if x <= y then y - x else Size() - (x - y)
    }

    // The first address of the walk from cur up to, and excluding, stop that is
    // not busy.
    function Scan(busy: set<int>, cur: int, stop: int): (r: Option<int>)
      requires Has(cur) && Has(stop)
      decreases Dist(cur, stop)
    {
      if cur == stop then None
      else if cur !in busy then Some(cur)
      else Scan(busy, Next(cur), stop)
    }

    // What a whole scan finds: the free address that is nearest in ring order.
    lemma {:induction false} ScanFindsNearest(busy: set<int>, cur: int, stop: int, x: int)
      requires Has(cur) && Has(stop)
      ensures Scan(busy, cur, stop) == Some(x) <==>
                && Has(x) && Dist(cur, x) < Dist(cur, stop) && x !in busy
                && forall y :: Has(y) && Dist(cur, y) < Dist(cur, x) ==> y in busy
      decreases Dist(cur, stop)
    {
      if cur != stop && cur in busy {
        ScanFindsNearest(busy, Next(cur), stop, x);
        if Has(x) && Dist(cur, x) < Dist(cur, stop) && x !in busy {
          assert forall y :: Has(y) && y != cur ==> Dist(cur, y) == Dist(Next(cur), y) + 1;
        }
      }
    }

    lemma {:induction false} ScanFindsNothing(busy: set<int>, cur: int, stop: int)
      requires Has(cur) && Has(stop)
      ensures Scan(busy, cur, stop) == None <==>
              forall y :: Has(y) && Dist(cur, y) < Dist(cur, stop) ==> y in busy
      decreases Dist(cur, stop)
    {
      if cur != stop && cur in busy {
        ScanFindsNothing(busy, Next(cur), stop);
      }
    }

    // A search after cursor c: the whole ring from the successor of c, without c.
    function SearchAfter(busy: set<int>, c: int): (r: Option<int>)
      requires Has(c)
    {
      Scan(busy, Next(c), c)
    }

    lemma StepBack(c: int, y: int)
      requires Has(c) && Has(y)
      ensures y != c ==> Dist(Next(c), y) == Dist(c, y) - 1 && Dist(c, y) > 0
      ensures y == c ==> Dist(Next(c), y) == Size() - 1
    {
    }

    // The search gives the free address nearest after c, and gives nothing
    // exactly when every address other than c is busy.
    lemma SearchAfterExact(busy: set<int>, c: int)
      requires Has(c)
      ensures forall x :: SearchAfter(busy, c) == Some(x) <==>
                && Has(x) && x != c && x !in busy
                && forall y :: Has(y) && y != c && Dist(c, y) < Dist(c, x) ==> y in busy
      ensures SearchAfter(busy, c) == None <==> forall y :: Has(y) && y != c ==> y in busy
    {
      forall y | Has(y)
        ensures y != c ==> Dist(Next(c), y) == Dist(c, y) - 1 && Dist(c, y) > 0
        ensures y == c ==> Dist(Next(c), y) == Size() - 1
      {
        StepBack(c, y);
      }
      forall x
        ensures SearchAfter(busy, c) == Some(x) <==>
                && Has(x) && x != c && x !in busy
                && forall y :: Has(y) && y != c && Dist(c, y) < Dist(c, x) ==> y in busy
      {
        ScanFindsNearest(busy, Next(c), c, x);
      }
      ScanFindsNothing(busy, Next(c), c);
    }
  }
}
