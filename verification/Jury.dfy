/** The random draw of a jury in contracts/escrow/src/lib.rs: members leave the pool one by one, and
    those without a conflict of interest are seated until the jury is full. */
module Jury {
  import opened EscrowTypes

  function RemoveAt<T>(s: seq<T>, i: nat): (r: seq<T>)
    requires i < |s|
    ensures |r| == |s| - 1
  {
    s[..i] + s[i + 1..]
  }

  /** The k-th random number, reduced to an index below n. Any sequence of indices is some `draws`. */
  function Roll(draws: seq<nat>, k: nat, n: nat): (i: nat)
    requires 0 < n
    ensures i < n
  {
    (if k < |draws| then draws[k] else 0) % n
  }

  /** The jury once `seated` are seated and k members have left the pool. */
  function Draw(pool: seq<Address>, barred: set<Address>, size: nat, seated: seq<Address>, draws: seq<nat>, k: nat)
    : seq<Address>
    decreases |pool|
  {
    if |seated| >= size || pool == [] then seated
    else
      var i := Roll(draws, k, |pool|);
      Draw(RemoveAt(pool, i), barred, size, if pool[i] in barred then seated else seated + [pool[i]], draws, k + 1)
  }

  method DrawJury(pool: seq<Address>, creator: Address, initiator: Address, previous: seq<Address>,
                  size: nat, draws: seq<nat>)
    returns (seated: seq<Address>)
    ensures seated == Draw(pool, {creator, initiator} + (set a | a in previous), size, [], draws, 0)
  {
    var available := pool;
    ghost var barred := {creator, initiator} + set a | a in previous;
    var k := 0;
    seated := [];
    while |seated| < size && |available| > 0
      invariant Draw(pool, barred, size, [], draws, 0) == Draw(available, barred, size, seated, draws, k)
      decreases |available|
    {
      var index := Roll(draws, k, |available|);
      var juror := available[index];
      if juror != creator && juror != initiator && juror !in previous {
        seated := seated + [juror];
      }
      available := RemoveAt(available, index);
      k := k + 1;
    }
  }

  // ----- What a draw yields

  function Eligible(pool: seq<Address>, barred: set<Address>): set<Address> {
    (set a | a in pool) - barred
  }

  lemma EligibleRemoved(pool: seq<Address>, barred: set<Address>, i: nat)
    requires Distinct(pool) && i < |pool|
    ensures Distinct(RemoveAt(pool, i))
    ensures Eligible(RemoveAt(pool, i), barred) == Eligible(pool, barred) - {pool[i]}
    ensures forall a :: a in RemoveAt(pool, i) <==> a in pool && a != pool[i]
  {
    var rest := RemoveAt(pool, i);
    forall a | a in pool && a != pool[i]
      ensures a in rest
    {
      var k :| 0 <= k < |pool| && pool[k] == a;
      assert rest[if k < i then k else k - 1] == a;
    }
    forall k | 0 <= k < |rest|
      ensures rest[k] == pool[if k < i then k else k + 1]
    {
    }
  }

  /** A sound jury so far: no repeats, nobody barred, nobody still in the pool. */
  ghost predicate Impartial(seated: seq<Address>, pool: seq<Address>, barred: set<Address>) {
    && Distinct(seated)
    && forall a :: a in seated ==> a !in barred && a !in pool
  }

  /** Whatever the random numbers are, a draw ends with as many distinct, impartial members of the
      pool as the jury needs, or with all there are if they are fewer. */
  lemma {:induction false} DrawSeats(pool: seq<Address>, barred: set<Address>, size: nat, seated: seq<Address>,
                                     draws: seq<nat>, k: nat)
    requires Distinct(pool) && Impartial(seated, pool, barred) && |seated| <= size
    ensures var jury := Draw(pool, barred, size, seated, draws, k);
      && Distinct(jury)
      && (forall a :: a in jury ==> a in seated || a in Eligible(pool, barred))
      && |jury| == (if |seated| + |Eligible(pool, barred)| < size then |seated| + |Eligible(pool, barred)| else size)
    decreases |pool|
  {
    if |seated| < size && pool != [] {
      var i := Roll(draws, k, |pool|);
      EligibleRemoved(pool, barred, i);
      if pool[i] in barred {
        assert Eligible(RemoveAt(pool, i), barred) == Eligible(pool, barred);
        DrawSeats(RemoveAt(pool, i), barred, size, seated, draws, k + 1);
      } else {
        assert pool[i] in Eligible(pool, barred);
        DrawSeats(RemoveAt(pool, i), barred, size, seated + [pool[i]], draws, k + 1);
      }
    }
  }

  /** The draw fills the jury exactly when enough members of the pool are impartial. */
  lemma DrawFillsIff(pool: seq<Address>, barred: set<Address>, size: nat, draws: seq<nat>)
    requires Distinct(pool)
    ensures |Draw(pool, barred, size, [], draws, 0)| >= size <==> |Eligible(pool, barred)| >= size
    ensures |Draw(pool, barred, size, [], draws, 0)| <= size
    ensures forall a :: a in Draw(pool, barred, size, [], draws, 0) ==> a in pool && a !in barred
    ensures Distinct(Draw(pool, barred, size, [], draws, 0))
  {
    DrawSeats(pool, barred, size, [], draws, 0);
  }

  lemma DrawStep(pool: seq<Address>, barred: set<Address>, size: nat, seated: seq<Address>, draws: seq<nat>, k: nat)
    requires k < |draws| && draws[k] < |pool| && pool[draws[k]] !in barred && |seated| < size
    ensures Draw(pool, barred, size, seated, draws, k)
      == Draw(RemoveAt(pool, draws[k]), barred, size, seated + [pool[draws[k]]], draws, k + 1)
  {
    assert Roll(draws, k, |pool|) == draws[k];
  }

  lemma MembersLeft(pool: seq<Address>, i: nat, jury: seq<Address>)
    requires Distinct(pool) && Distinct(jury) && jury != [] && i < |pool| && pool[i] == jury[0]
    requires forall a :: a in jury ==> a in pool
    ensures Distinct(jury[1..]) && Distinct(RemoveAt(pool, i))
    ensures forall a :: a in jury[1..] ==> a in jury && a in RemoveAt(pool, i)
  {
    EligibleRemoved(pool, {}, i);
  }

  /** And no impartial jury is out of reach: each of them, in each order, comes of some draw. */
  lemma {:induction false} EveryJuryCanBeDrawn(pool: seq<Address>, barred: set<Address>, seated: seq<Address>,
                                               jury: seq<Address>, drawn: seq<nat>)
    returns (draws: seq<nat>)
    requires Distinct(pool) && Distinct(jury)
    requires forall a :: a in jury ==> a in pool && a !in barred
    ensures drawn <= draws
    ensures Draw(pool, barred, |seated| + |jury|, seated, draws, |drawn|) == seated + jury
    decreases |jury|
  {
    if jury == [] {
      draws := drawn;
      assert seated + jury == seated;
    } else {
      assert jury[0] in jury;
      var i :| 0 <= i < |pool| && pool[i] == jury[0];
      MembersLeft(pool, i, jury);
      draws := EveryJuryCanBeDrawn(RemoveAt(pool, i), barred, seated + [jury[0]], jury[1..], drawn + [i]);
      assert draws[|drawn|] == i;
      DrawStep(pool, barred, |seated| + |jury|, seated, draws, |drawn|);
      assert seated + [jury[0]] + jury[1..] == seated + jury;
    }
  }
}
