/**
 The path of a scan through application/keyboard/keyboard.c: ghost removal, debounce, and the ring of four
 changed matrices that `kb_scan_key_value` reads from.
 */
module KeyMatrix {
  import opened GhostKeys
  import opened Modulo
  import opened Runs
  import opened Debounce

  /** One scan, without its ghost keys where they are removed, and whether it is filtered. */
  datatype Scan = Scan(rows: seq<Row>, filtEn: bool)

  function RowIn(s: Scan, i: nat): RowScan { RowScan(if i < |s.rows| then s.rows[i] else 0, s.filtEn) }

  function Column(scans: seq<Scan>, i: nat): (h: seq<RowScan>)
    ensures |h| == |scans|
  {
    seq(|scans|, t requires 0 <= t < |scans| => RowIn(scans[t], i))
  }

  /** The filter's memory of every row after `scans`. */
  function States(scans: seq<Scan>, n: nat): (m: seq<RowState>)
    ensures |m| == n
  {
    seq(n, i requires 0 <= i < n => RowAfter(Column(scans, i)))
  }

  /** The debounced matrix after `scans`. */
  function Output(scans: seq<Scan>, n: nat): (m: seq<Row>)
    ensures |m| == n
  {
    Lasts(States(scans, n))
  }

  function Lasts(st: seq<RowState>): (m: seq<Row>)
    ensures |m| == |st|
  {
    seq(|st|, i requires 0 <= i < |st| => st[i].last)
  }

  lemma LastsAre(m: seq<Row>, st: seq<RowState>)
    requires |m| == |st| && forall i :: 0 <= i < |m| ==> m[i] == st[i].last
    ensures m == Lasts(st)
  {
  }

  lemma LastsDiffer(a: seq<RowState>, b: seq<RowState>)
    requires |a| == |b|
    ensures Lasts(a) != Lasts(b) <==> exists i :: 0 <= i < |a| && a[i].last != b[i].last
  {
    if i :| 0 <= i < |a| && a[i].last != b[i].last {
      assert Lasts(a)[i] != Lasts(b)[i];
    }
  }

  /** The debounced matrices with repetitions left out, from all keys released on. */
  function Changes(scans: seq<Scan>, n: nat): seq<seq<Row>>
    decreases |scans|
  {
    if |scans| == 0 then []
    else
      var before := scans[..|scans| - 1];
      Changes(before, n) + if Output(scans, n) != Output(before, n) then [Output(scans, n)] else []
  }

  lemma StatesNext(scans: seq<Scan>, s: Scan, n: nat, i: nat)
    requires i < n
    ensures States(scans + [s], n)[i] == StepRow(States(scans, n)[i], RowIn(s, i))
  {
    hide StepRow;
    assert Column(scans + [s], i) == Column(scans, i) + [RowIn(s, i)];
    FoldSplits(StepRow, START, Column(scans, i), [RowIn(s, i)]);
    assert [RowIn(s, i)][..0] == [];
  }

  lemma ChangesNext(scans: seq<Scan>, s: Scan, n: nat)
    ensures Changes(scans + [s], n)
         == Changes(scans, n) + if Output(scans + [s], n) != Output(scans, n) then [Output(scans + [s], n)] else []
  {
    hide Output;
    assert (scans + [s])[..|scans|] == scans;
  }

  lemma {:induction false} ChangesEndInOutput(scans: seq<Scan>, n: nat)
    ensures var queued := Changes(scans, n);
            Output(scans, n) == if |queued| == 0 then seq(n, _ => 0 as Row) else queued[|queued| - 1]
    decreases |scans|
  {
    if |scans| == 0 {
      forall i | 0 <= i < n ensures Output(scans, n)[i] == 0 {
        assert Column(scans, i) == [];
      }
    } else {
      ChangesEndInOutput(scans[..|scans| - 1], n);
    }
  }

  /** No two matrices in a row are the same: each one queued is a change of the keys pressed. */
  lemma {:induction false} ChangesDiffer(scans: seq<Scan>, n: nat, k: nat)
    requires k + 1 < |Changes(scans, n)|
    ensures Changes(scans, n)[k] != Changes(scans, n)[k + 1]
    decreases |scans|
  {
    if |scans| == 0 {
    } else {
      var before := scans[..|scans| - 1];
      ChangesEndInOutput(before, n);
      if k + 1 < |Changes(before, n)| {
        ChangesDiffer(before, n, k);
      }
    }
  }

  /** The latest matrix queued shows each key as the last scan that decided it found it. */
  lemma LatestIsSettled(scans: seq<Scan>, n: nat, i: nat, k: nat, key: Row)
    requires i < n && k < |scans| && IsKey(key)
    requires Settles(Column(scans, i), k, key)
    requires forall j :: k < j < |scans| ==> !Settles(Column(scans, i), j, key)
    ensures var queued := Changes(scans, n);
            if |queued| == 0 then !Has(RowIn(scans[k], i).raw, key)
            else |queued[|queued| - 1]| == n && Has(queued[|queued| - 1][i], key) == Has(RowIn(scans[k], i).raw, key)
  {
    hide Changes, Has, IsKey, Settles;
    ChangesEndInOutput(scans, n);
    OutputIsLastSettled(Column(scans, i), k, key);
    assert Column(scans, i)[k] == RowIn(scans[k], i);
    assert Output(scans, n)[i] == States(scans, n)[i].last == RowAfter(Column(scans, i)).last;
    HasEither(0, 0, key);
  }

  /** A key that the last two scans both found pressed, or both released, is so in the latest matrix queued. */
  lemma TwoScansShow(scans: seq<Scan>, n: nat, i: nat, key: Row)
    requires i < n && |scans| > 1 && IsKey(key)
    requires Has(RowIn(scans[|scans| - 1], i).raw, key) == Has(RowIn(scans[|scans| - 2], i).raw, key)
    ensures var queued, pressed := Changes(scans, n), Has(RowIn(scans[|scans| - 1], i).raw, key);
            if |queued| == 0 then !pressed
            else |queued[|queued| - 1]| == n && Has(queued[|queued| - 1][i], key) == pressed
  {
    hide Changes, Has, IsKey;
    LatestIsSettled(scans, n, i, |scans| - 1, key);
  }

  lemma EighthsOf(n: int, q: int, r: int)
    requires n == 8 * q + r && 0 <= r < 8
    ensures n % 8 == r && n % 4 == r % 4
  {
    RemainderIs(n, 8, q, r);
    RemainderIs(n, 4, 2 * q + r / 4, r % 4);
  }

  lemma EighthsNear(n: int, q: int, r: int)
    requires n == 8 * q + r && -8 <= r < 16
    ensures n % 8 == if r < 0 then r + 8 else if r < 8 then r else r - 8
    ensures n % 4 == n % 8 % 4
  {
    if r < 0 {
      EighthsOf(n, q - 1, r + 8);
    } else if r < 8 {
      EighthsOf(n, q, r);
    } else {
      EighthsOf(n, q + 1, r - 8);
    }
  }

  /** Three-bit pointers tell slots and distances apart as unbounded ones would. */
  lemma PointersWrap(head: nat, tail: nat)
    requires head <= tail <= head + 4
    ensures head % 8 % 4 == head % 4 && tail % 8 % 4 == tail % 4
    ensures tail % 8 == head % 8 <==> tail == head
    ensures (head % 8 + 1) % 8 == (head + 1) % 8 && (tail % 8 + 1) % 8 == (tail + 1) % 8
    ensures ((tail + 1) % 8 - head % 8) % 8 == tail + 1 - head
    ensures ((tail + 1) % 8 - 4) % 8 == (tail - 3) % 8
  {
    var q, x, y, w := head / 8, head % 8, tail % 8, (tail + 1) % 8;
    EighthsNear(head, q, x);
    EighthsNear(head + 1, q, x + 1);
    EighthsNear(tail, q, x + tail - head);
    EighthsNear(tail + 1, q, x + tail - head + 1);
    EighthsNear(tail - 3, q, x + tail - head - 3);
    EighthsNear(x + 1, 0, x + 1);
    EighthsNear(y + 1, 0, y + 1);
    EighthsNear(w - x, 0, w - x);
    EighthsNear(w - 4, 0, w - 4);
  }

  lemma SlotsApart(k: nat, n: nat)
    requires k < n < k + 4
    ensures k % 4 != n % 4
  {
  }

  /** What `kb_scan_key_value` hands to the key mapping. */
  datatype Reading = EmptyKey | NoData | Keys(matrix: seq<Row>)

  class Keyboard {
    const rows: nat
    /** `KB_RM_GHOST_KEY_EN` */
    const rmGhostKeys: bool
    const mtrxPre: array<Row>
    const mtrxLast: array<Row>
    const matrixBuff: array2<Row>
    var matrixWptr: int
    var matrixRptr: int
    ghost var scans: seq<Scan>
    /** The rows of every scan, as the hardware found them. */
    ghost var found: seq<seq<Row>>
    /** how many of the changed matrices have left the ring */
    ghost var head: nat

    ghost predicate FilterValid()
      reads `scans, mtrxPre, mtrxLast
    {
      && mtrxPre != mtrxLast && mtrxPre.Length == mtrxLast.Length == rows
      && (forall i :: 0 <= i < rows ==>
            mtrxPre[i] == States(scans, rows)[i].pre && mtrxLast[i] == States(scans, rows)[i].last)
    }

    ghost predicate InSlot(slot: nat, m: seq<Row>)
      requires slot < 4 == matrixBuff.Length0 && matrixBuff.Length1 == rows
      reads matrixBuff
    {
      |m| == rows && forall i :: 0 <= i < rows ==> matrixBuff[slot, i] == m[i]
    }

    ghost predicate RingHolds(queued: seq<seq<Row>>)
      reads `head, `matrixWptr, `matrixRptr, matrixBuff
    {
      && matrixBuff.Length0 == 4 && matrixBuff.Length1 == rows
      && head <= |queued| <= head + 4
      && matrixWptr == |queued| % 8 && matrixRptr == head % 8
      && (forall k :: head <= k < |queued| ==> InSlot(k % 4, queued[k]))
    }

    lemma AtMostFour(queued: seq<seq<Row>>)
      requires RingHolds(queued)
      ensures head <= |queued| <= head + 4
    {
    }

    /** The ring holds the latest changes of the debounced matrix, in order: at most four, none skipped. */
    ghost predicate Valid()
      reads this, mtrxPre, mtrxLast, matrixBuff
    {
      FilterValid() && RingHolds(Changes(scans, rows)) && AllCounted()
    }

    /** With ghost removal each scan is what was found without ghosts, in a build without it just what was found. */
    ghost predicate AllCounted()
      reads `scans, `found
    {
      && |found| == |scans|
      && forall t :: 0 <= t < |scans| ==>
           |found[t]| == rows && scans[t].rows == if rmGhostKeys then Cleaned(found[t]) else found[t]
    }

    /**
     In a build without ghost removal a key found pressed, or released, by both last scans is so in the latest matrix
     queued, whatever other keys are pressed.
     */
    lemma FoundTwiceShows(i: nat, key: Row)
      requires Valid() && !rmGhostKeys && i < rows && |found| > 1 && IsKey(key)
      requires Has(found[|found| - 1][i], key) == Has(found[|found| - 2][i], key)
      ensures var queued, pressed := Changes(scans, rows), Has(found[|found| - 1][i], key);
              if |queued| == 0 then !pressed
              else |queued[|queued| - 1]| == rows && Has(queued[|queued| - 1][i], key) == pressed
    {
      hide Changes, Has, IsKey, States;
      TwoScansShow(scans, rows, i, key);
    }

    /** With ghost removal so is a key that was pressed both times and shared with no other row but as its only key. */
    lemma CleanTwiceShows(i: nat, key: Row)
      requires Valid() && rmGhostKeys && i < rows && |found| > 1 && IsKey(key)
      requires forall t :: |found| - 2 <= t < |found| ==>
                 Has(found[t][i], key)
                 && forall p, q :: 0 <= p <= i && p < q < rows && Has(found[t][p], key) && Has(found[t][q], key) ==>
                      found[t][p] == found[t][q] == key
      ensures var queued := Changes(scans, rows);
              |queued| > 0 && |queued[|queued| - 1]| == rows && Has(queued[|queued| - 1][i], key)
    {
      hide Changes, Has, IsKey, States, Cleaned;
      SurvivesUnlessShared(found[|found| - 1], i, key);
      SurvivesUnlessShared(found[|found| - 2], i, key);
      TwoScansShow(scans, rows, i, key);
    }

    constructor (rows: nat, rmGhostKeys: bool)
      ensures Valid() && scans == [] && found == [] && head == 0 && this.rows == rows && this.rmGhostKeys == rmGhostKeys
      ensures fresh(mtrxPre) && fresh(mtrxLast) && fresh(matrixBuff)
    {
      this.rows, this.rmGhostKeys := rows, rmGhostKeys;
      mtrxPre := new Row[rows](_ => 0);
      mtrxLast := new Row[rows](_ => 0);
      matrixBuff := new Row[4, rows];
      matrixWptr, matrixRptr := 0, 0;
      scans, found, head := [], [], 0;
      new;
      forall i | 0 <= i < rows ensures Column([], i) == [] {
      }
    }

    /** One round of the loop of `key_debounce_filter`: `changed` is where the code sets `kc`. */
    method FilterRow(mtrxCur: array<Row>, i: nat, filtEn: bool) returns (changed: bool)
      requires i < mtrxCur.Length == mtrxPre.Length == mtrxLast.Length
      requires mtrxCur != mtrxPre && mtrxCur != mtrxLast && mtrxPre != mtrxLast
      modifies mtrxCur, mtrxPre, mtrxLast
      ensures RowState(mtrxPre[i], mtrxLast[i])
           == StepRow(old(RowState(mtrxPre[i], mtrxLast[i])), RowScan(old(mtrxCur[i]), filtEn))
      ensures mtrxCur[i] == mtrxLast[i] && changed == (mtrxLast[i] != old(mtrxLast[i]))
      ensures forall j :: 0 <= j < mtrxCur.Length && j != i ==>
                mtrxCur[j] == old(mtrxCur[j]) && mtrxPre[j] == old(mtrxPre[j]) && mtrxLast[j] == old(mtrxLast[j])
    {
      hide Filtered;
      var mtrxTmp := mtrxCur[i];
      if filtEn {
        mtrxCur[i] := Filtered(mtrxLast[i], mtrxPre[i], mtrxTmp);
      }
      changed := mtrxCur[i] != mtrxLast[i];
      mtrxPre[i] := mtrxTmp;
      mtrxLast[i] := mtrxCur[i];
    }

    /** `key_debounce_filter`: the flag is set exactly when some row of the output changed. */
    method KeyDebounceFilter(mtrxCur: array<Row>, filtEn: bool) returns (kc: bool)
      requires FilterValid() && mtrxCur.Length == rows && mtrxCur != mtrxPre && mtrxCur != mtrxLast
      modifies mtrxCur, mtrxPre, mtrxLast, this`scans
      ensures FilterValid()
      ensures scans == old(scans) + [Scan(old(mtrxCur[..]), filtEn)]
      ensures mtrxCur[..] == Output(scans, rows)
      ensures kc <==> Output(scans, rows) != Output(old(scans), rows)
    {
      hide States, Filtered, Lasts;
      ghost var s := Scan(mtrxCur[..], filtEn);
      ghost var before, after := States(scans, rows), States(scans + [s], rows);
      forall i | 0 <= i < rows ensures after[i] == StepRow(before[i], RowScan(s.rows[i], filtEn)) {
        StatesNext(scans, s, rows, i);
      }
      kc := false;
      for i := 0 to rows
        modifies mtrxCur, mtrxPre, mtrxLast
        invariant forall j :: i <= j < rows ==>
                                (mtrxCur[j] == s.rows[j] && mtrxPre[j] == before[j].pre && mtrxLast[j] == before[j].last)
        invariant forall j :: 0 <= j < i ==> mtrxPre[j] == after[j].pre && mtrxCur[j] == mtrxLast[j] == after[j].last
        invariant kc <==> exists j :: 0 <= j < i && after[j].last != before[j].last
      {
        var changed := FilterRow(mtrxCur, i, filtEn);
        kc := kc || changed;
      }
      scans := scans + [s];
      LastsAre(mtrxCur[..], after);
      LastsDiffer(after, before);
    }

    /** The copy loop of the push */
    method StoreRows(slot: nat, pressedMatrix: array<Row>)
      requires slot < 4 == matrixBuff.Length0 && matrixBuff.Length1 == pressedMatrix.Length == rows
      modifies matrixBuff
      ensures InSlot(slot, pressedMatrix[..])
      ensures forall other, i :: 0 <= other < 4 && other != slot && 0 <= i < rows ==>
                                   matrixBuff[other, i] == old(matrixBuff[other, i])
    {
      for k := 0 to rows
        invariant forall i :: 0 <= i < k ==> matrixBuff[slot, i] == pressedMatrix[i]
        invariant forall other, i :: 0 <= other < 4 && other != slot && 0 <= i < rows ==>
                                       matrixBuff[other, i] == old(matrixBuff[other, i])
      {
        matrixBuff[slot, k] := pressedMatrix[k];
      }
    }

    /** The push to the matrix buffer: a fifth matrix costs the oldest one. */
    method Push(pressedMatrix: array<Row>, ghost queued: seq<seq<Row>>)
      requires RingHolds(queued) && pressedMatrix.Length == rows
      modifies matrixBuff, `matrixWptr, `matrixRptr, `head
      ensures RingHolds(queued + [pressedMatrix[..]])
      ensures head == if |queued| == old(head) + 4 then old(head) + 1 else old(head)
    {
      PointersWrap(head, |queued|);
      StoreRows(matrixWptr % 4, pressedMatrix);
      matrixWptr := (matrixWptr + 1) % 8;
      if (matrixWptr - matrixRptr) % 8 > 4 {
        matrixRptr := (matrixWptr - 4) % 8;
        head := head + 1;
      }
      ghost var all := queued + [pressedMatrix[..]];
      forall k | head <= k < |all| ensures InSlot(k % 4, all[k]) {
        if k < |queued| {
          assert old(InSlot(k % 4, queued[k]));
          SlotsApart(k, |queued|);
        }
      }
    }

    /** The read-out of the oldest matrix in the buffer. */
    method Pop(ghost queued: seq<seq<Row>>) returns (m: seq<Row>)
      requires RingHolds(queued) && head < |queued|
      modifies `matrixRptr, `head
      ensures RingHolds(queued)
      ensures head == old(head) + 1 && m == queued[old(head)]
    {
      PointersWrap(head, |queued|);
      var pd := matrixRptr % 4;
      assert InSlot(head % 4, queued[head]);
      m := seq(rows, k requires 0 <= k < rows reads matrixBuff => matrixBuff[pd, k]);
      matrixRptr := (matrixRptr + 1) % 8;
      head := head + 1;
      forall k | head <= k < |queued| ensures InSlot(k % 4, queued[k]) {
        assert old(InSlot(k % 4, queued[k]));
      }
    }

    /**
     `kb_scan_key_value` on the rows just scanned. Filtering is off at power-on; an invalid number-lock status
     reads nothing.
     */
    method KbScanKeyValue(pressedMatrix: array<Row>, poweron: bool, invalid: bool, readKey: bool) returns (r: Reading)
      requires Valid() && pressedMatrix.Length == rows && pressedMatrix != mtrxPre && pressedMatrix != mtrxLast
      modifies this`scans, this`found, this`matrixWptr, this`matrixRptr, this`head
      modifies pressedMatrix, mtrxPre, mtrxLast, matrixBuff
      ensures Valid()
      ensures found == old(found) + [old(pressedMatrix[..])]
      ensures scans == old(scans) + [scans[|old(scans)|]] && scans[|old(scans)|].filtEn == !poweron
      ensures !rmGhostKeys ==> scans[|old(scans)|].rows == old(pressedMatrix[..])
      ensures rmGhostKeys ==> scans[|old(scans)|].rows == Cleaned(old(pressedMatrix[..]))
      ensures var queued := Changes(scans, rows);
              var first := if |queued| > old(head) + 4 then old(head) + 1 else old(head);
              if invalid then r == EmptyKey && head == first
              else if !readKey || first == |queued| then r == NoData && head == first
              else r == Keys(queued[first]) && head == first + 1
    {
      hide Changes, Output, Cleaned, FilterValid, RingHolds;
      ghost var queued := Changes(scans, rows);
      found := found + [pressedMatrix[..]];
      AtMostFour(queued);
      if rmGhostKeys {
        KbRmvGhostKey(pressedMatrix);
      }
      var keyChanged := KeyDebounceFilter(pressedMatrix, !poweron);
      ChangesNext(old(scans), scans[|scans| - 1], rows);
      if keyChanged {
        Push(pressedMatrix, queued);
        queued := queued + [pressedMatrix[..]];
      }
      assert queued == Changes(scans, rows);
      r := ReadOut(invalid, readKey, queued);
    }

    /** What is handed on after a scan: the oldest queued matrix, if it is asked for and there is one. */
    method ReadOut(invalid: bool, readKey: bool, ghost queued: seq<seq<Row>>) returns (r: Reading)
      requires RingHolds(queued)
      modifies `matrixRptr, `head
      ensures RingHolds(queued)
      ensures if invalid then r == EmptyKey && head == old(head)
              else if !readKey || old(head) == |queued| then r == NoData && head == old(head)
              else r == Keys(queued[old(head)]) && head == old(head) + 1
    {
      if invalid {
        return EmptyKey;
      }
      PointersWrap(head, |queued|);
      if matrixWptr == matrixRptr || !readKey {
        return NoData;
      }
      var m := Pop(queued);
      return Keys(m);
    }
  }
}
