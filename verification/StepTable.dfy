/**
 The step table of application/audio/adpcm.c, entry by entry: 7 to 14, and then sixteen, growing by a tenth each time
 and rounded down, up to the last one, which is the largest sample.
 */
module StepTable {
  import opened Adpcm
  import opened Modulo

  /** `size` is 16 times `p11 / p10`, rounded down. */
  predicate RoundsDown(size: nat, p10: nat, p11: nat) { size * p10 <= 16 * p11 < (size + 1) * p10 }

  /** So are the entries `i` to `n` of row `r`, from these powers of 10 and 11 on. */
  predicate RowRounds(r: nat, i: nat, n: nat, p10: nat, p11: nat)
    requires r <= 8 && i <= n <= |Row(r)|
    decreases n - i
  {
    i == n || (RoundsDown(Row(r)[i], p10, p11) && RowRounds(r, i + 1, n, 10 * p10, 11 * p11))
  }

  /** The powers of 10 and 11 at the start of row `r`, from their second and tenth powers. */
  function StartOf(r: nat): (nat, nat) {
    if r <= 1 then (100, 121) else (StartOf(r - 1).0 * 10000000000, StartOf(r - 1).1 * 25937424601)
  }

  // ----- the rows, computed

  lemma Row0Rounds()
    ensures RowRounds(0, 8, 10, 1, 1)
  {
  }

  lemma Row1Rounds()
    ensures RowRounds(1, 0, 10, StartOf(1).0, StartOf(1).1)
  {
  }

  lemma Row2Rounds()
    ensures RowRounds(2, 0, 10, StartOf(2).0, StartOf(2).1)
  {
  }

  lemma Row3Rounds()
    ensures RowRounds(3, 0, 10, StartOf(3).0, StartOf(3).1)
  {
  }

  lemma Row4Rounds()
    ensures RowRounds(4, 0, 10, StartOf(4).0, StartOf(4).1)
  {
  }

  lemma Row5Rounds()
    ensures RowRounds(5, 0, 10, StartOf(5).0, StartOf(5).1)
  {
  }

  lemma Row6Rounds()
    ensures RowRounds(6, 0, 10, StartOf(6).0, StartOf(6).1)
  {
  }

  lemma Row7Rounds()
    ensures RowRounds(7, 0, 10, StartOf(7).0, StartOf(7).1)
  {
  }

  lemma Row8Rounds()
    ensures RowRounds(8, 0, 8, StartOf(8).0, StartOf(8).1)
  {
  }

  lemma RowsRound(r: nat)
    requires 1 <= r <= 8
    ensures |Row(r)| == if r == 8 then 9 else 10
    ensures RowRounds(r, 0, if r == 8 then 8 else 10, StartOf(r).0, StartOf(r).1)
  {
    hide RowRounds, StartOf;
    match r
    case 1 => Row1Rounds();
    case 2 => Row2Rounds();
    case 3 => Row3Rounds();
    case 4 => Row4Rounds();
    case 5 => Row5Rounds();
    case 6 => Row6Rounds();
    case 7 => Row7Rounds();
    case 8 => Row8Rounds();
  }

  // ----- the powers

  lemma {:induction false} TenMore(b: nat, k: nat)
    ensures Power(b, k + 10) == Power(b, k) * Power(b, 10)
  {
    if k == 0 {
    } else {
      TenMore(b, k - 1);
      assert b * (Power(b, k - 1) * Power(b, 10)) == b * Power(b, k - 1) * Power(b, 10);
    }
  }

  lemma TenthPowers()
    ensures Power(10, 10) == 10000000000 && Power(11, 10) == 25937424601
    ensures Power(10, 2) == 100 && Power(11, 2) == 121
  {
    assert Power(10, 5) == 100000 && Power(11, 5) == 161051;
  }

  lemma {:induction false} StartsAtPowers(r: nat)
    requires r >= 1
    ensures StartOf(r) == (Power(10, 10 * r - 8), Power(11, 10 * r - 8))
  {
    hide Power;
    TenthPowers();
    if r == 1 {
    } else {
      StartsAtPowers(r - 1);
      TenMore(10, 10 * r - 18);
      TenMore(11, 10 * r - 18);
    }
  }

  lemma {:induction false} EntryRounds(r: nat, i: nat, n: nat, k: nat, j: nat)
    requires r <= 8 && i <= j < n <= |Row(r)| && RowRounds(r, i, n, Power(10, k), Power(11, k))
    ensures RoundsDown(Row(r)[j], Power(10, k + j - i), Power(11, k + j - i))
    decreases j - i
  {
    hide Row, RoundsDown;
    if i == j {
    } else {
      EntryRounds(r, i + 1, n, k + 1, j);
    }
  }

  lemma RowLength(r: nat)
    requires r <= 8
    ensures |Row(r)| == if r == 8 then 9 else 10
  {
  }

  lemma OuterEntries(i: nat)
    requires i <= 8
    ensures i < 8 ==> Row(0)[i] == 7 + i
    ensures i == 8 ==> Row(8)[i] == 32767
  {
  }

  lemma EntryOfRow(r: nat, i: nat)
    requires r <= 8 && 10 * r + i <= 88 && i < 10
    ensures i < |Row(r)|
    ensures StepSize(10 * r + i) == Row(r)[i]
  {
    EntryFrom(0, r, i);
  }

  lemma {:induction false} EntryFrom(from: nat, r: nat, i: nat)
    requires from <= r <= 8 && 10 * r + i <= 88 && i < 10
    ensures i < |Row(r)|
    ensures SizeFrom(from, 10 * (r - from) + i) == Row(r)[i]
    decreases r - from
  {
    hide Row;
    RowLength(r);
    if from == r {
    } else {
      EntryFrom(from + 1, r, i);
    }
  }

  /** Every entry of the table. */
  lemma StepTableExactly(i: Index)
    ensures i < 8 ==> StepSize(i) == 7 + i
    ensures 8 <= i < 88 ==>
              && StepSize(i) * Power(10, i - 8) <= 16 * Power(11, i - 8)
              && 16 * Power(11, i - 8) < (StepSize(i) + 1) * Power(10, i - 8)
    ensures i == 88 ==> StepSize(i) == 32767
  {
    hide Power, RowRounds, SizeFrom, StepSize, StartOf, Row;
    var r, j := i / 10, i % 10;
    RowLength(r);
    EntryOfRow(r, j);
    if i < 8 || i == 88 {
      OuterEntries(j);
    } else if r == 0 {
      Row0Rounds();
      PowersOfZero();
      EntryRounds(0, 8, 10, 0, j);
    } else {
      RowsRound(r);
      StartsAtPowers(r);
      EntryRounds(r, 0, if r == 8 then 8 else 10, 10 * r - 8, j);
    }
  }

  lemma PowersOfZero()
    ensures Power(10, 0) == 1 && Power(11, 0) == 1
  {
  }
}
