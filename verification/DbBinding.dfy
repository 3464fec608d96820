/** ServerCore/DBBind.h: which parameters and columns of a statement are bound, as bits of two words.
    The counts are at most 31, where FullBits fits the int of its enum, and indices at most 62, where
    `1LL << idx` stays positive. */
module DbBinding {
  import opened Bits

  const MAX_COUNT := 31
  const MAX_INDEX := 62

  /** FullBits<C>. */
  function FullBits(count: nat): nat {
    if count == 0 then 0
    else if count == 1 then 1
    else Or(Pow2(count - 1), FullBits(count - 1))
  }

  lemma {:induction false} BitsOfFullBits(count: nat, i: nat)
    ensures HasBit(FullBits(count), i) <==> i < count
    decreases count
  {
    if count == 0 {
      NoBitsInZero(i);
    } else if count == 1 {
      assert Pow2(0) == 1;
      BitsOfPow2(0, i);
    } else {
      BitsOfOr(Pow2(count - 1), FullBits(count - 1), i);
      BitsOfPow2(count - 1, i);
      BitsOfFullBits(count - 1, i);
    }
  }

  function UpTo(count: nat): (r: set<nat>)
    ensures forall i: nat :: i in r <==> i < count
  {
    if count == 0 then {} else UpTo(count - 1) + {count - 1}
  }

  /** The word that stands for a set of indices. */
  ghost predicate Stands(flag: nat, bound: set<nat>) {
    forall i: nat :: HasBit(flag, i) <==> i in bound
  }

  /** A word equals FullBits<count> exactly when it stands for {0, ..., count - 1}. */
  lemma FullExactly(flag: nat, bound: set<nat>, count: nat)
    requires Stands(flag, bound)
    ensures flag == FullBits(count) <==> bound == UpTo(count)
  {
    forall i: nat
      ensures HasBit(FullBits(count), i) <==> i < count
    {
      BitsOfFullBits(count, i);
    }
    if bound == UpTo(count) {
      SameBitsSameNumber(flag, FullBits(count));
    }
    if flag == FullBits(count) {
      assert forall i: nat :: i in bound <==> i < count;
    }
  }

  lemma BindAddsIndex(flag: nat, bound: set<nat>, idx: nat)
    requires Stands(flag, bound)
    ensures Stands(Or(flag, Pow2(idx)), bound + {idx})
  {
    forall i: nat
      ensures HasBit(Or(flag, Pow2(idx)), i) <==> i in bound + {idx}
    {
      BitsOfOr(flag, Pow2(idx), i);
      BitsOfPow2(idx, i);
    }
  }

  class DBBind {
    const paramCount: nat
    const columnCount: nat
    var paramFlag: nat
    var columnFlag: nat
    ghost var params: set<nat>      // every index bound so far
    ghost var columns: set<nat>

    ghost predicate Valid()
      reads this
    {
      && paramCount <= MAX_COUNT && columnCount <= MAX_COUNT
      && Stands(paramFlag, params) && Stands(columnFlag, columns)
    }

    constructor (paramCount: nat, columnCount: nat)
      requires paramCount <= MAX_COUNT && columnCount <= MAX_COUNT
      ensures Valid() && params == {} && columns == {}
      ensures this.paramCount == paramCount && this.columnCount == columnCount
    {
      this.paramCount, this.columnCount := paramCount, columnCount;
      paramFlag, columnFlag, params, columns := 0, 0, {}, {};
      new;
      forall i: nat
        ensures !HasBit(0, i)
      {
        NoBitsInZero(i);
      }
    }

    method BindParam(idx: nat)
      requires Valid() && idx <= MAX_INDEX
      modifies this`paramFlag, this`params
      ensures Valid() && params == old(params) + {idx}
    {
      BindAddsIndex(paramFlag, params, idx);
      paramFlag := Or(paramFlag, Pow2(idx));
      params := params + {idx};
    }

    method BindCol(idx: nat)
      requires Valid() && idx <= MAX_INDEX
      modifies this`columnFlag, this`columns
      ensures Valid() && columns == old(columns) + {idx}
    {
      BindAddsIndex(columnFlag, columns, idx);
      columnFlag := Or(columnFlag, Pow2(idx));
      columns := columns + {idx};
    }

    /** Exactly when the bound indices are all those of the statement and no others. */
    method Validate() returns (ok: bool)
      requires Valid()
      ensures ok <==> params == UpTo(paramCount) && columns == UpTo(columnCount)
    {
      FullExactly(paramFlag, params, paramCount);
      FullExactly(columnFlag, columns, columnCount);
      ok := paramFlag == FullBits(paramCount) && columnFlag == FullBits(columnCount);
    }
  }
}
