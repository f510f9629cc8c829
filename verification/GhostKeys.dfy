/**
 Ghost-key removal, `kb_rmv_ghost_key` of application/keyboard/keyboard.c. A row of the key matrix is the
 set of its pressed columns, as bits.
 */
module GhostKeys {
  type Row = bv32

  // ----- bits

  function Both(a: Row, b: Row): Row { a & b }
  function Either(a: Row, b: Row): Row { a | b }
  function Without(a: Row, b: Row): Row { a & !b }

  /** `BIT_IS_POW2`, which also holds of 0 */
  predicate AtMostOneBit(x: Row) { x & (x - 1) == 0 }

  /** A single column. */
  predicate IsKey(key: Row) { key != 0 && AtMostOneBit(key) }

  predicate Has(a: Row, key: Row) { a & key != 0 }

  lemma OrMeets(a: Row, b: Row, key: Row)
    ensures (a | b) & key != 0 <==> a & key != 0 || b & key != 0
    ensures 0 & key == 0
  {
  }

  /** A single column is in a row or out of it. */
  lemma KeyIsAtomic(x: Row, key: Row)
    requires key & (key - 1) == 0
    ensures x & key == 0 || x & key == key
  {
  }

  lemma ExceptRegroups(a: Row, b: Row, key: Row)
    ensures (a & !b) & key == a & (key & !b)
  {
  }

  lemma KeyOutside(b: Row, key: Row)
    ensures b & key == 0 ==> key & !b == key
  {
  }

  lemma KeyInside(b: Row, key: Row)
    ensures b & key == key ==> key & !b == 0
  {
  }

  lemma MeetNothing(a: Row)
    ensures a & 0 == 0
  {
  }

  lemma HasEither(a: Row, b: Row, key: Row)
    ensures Has(Either(a, b), key) <==> Has(a, key) || Has(b, key)
    ensures !Has(0, key)
  {
    OrMeets(a, b, key);
  }

  lemma HasWithout(a: Row, b: Row, key: Row)
    requires IsKey(key)
    ensures Has(Without(a, b), key) <==> Has(a, key) && !Has(b, key)
  {
    KeyIsAtomic(b, key);
    ExceptRegroups(a, b, key);
    if b & key == 0 {
      KeyOutside(b, key);
    } else {
      KeyInside(b, key);
      MeetNothing(a);
    }
  }

  lemma EitherLaws(a: Row, b: Row, c: Row)
    ensures Either(Either(a, b), c) == Either(a, Either(b, c))
    ensures Either(a, 0) == a
  {
  }

  // ----- the rule

  /** Two rows share keys that may be ghosts: more than one, or one while the rows differ. */
  predicate GhostPair(a: Row, b: Row) {
    Both(a, b) != 0 && (!AtMostOneBit(Both(a, b)) || a ^ b != 0)
  }

  function GhostsOf(a: Row, b: Row): Row { if GhostPair(a, b) then Both(a, b) else 0 }

  /** The keys row `i` and the rows after it, before `j`, share as possible ghosts. */
  function MixWith(m: seq<Row>, i: nat, j: nat): Row
    requires i < j <= |m|
    decreases j
  {
    if j == i + 1 then 0 else Either(MixWith(m, i, j - 1), GhostsOf(m[i], m[j - 1]))
  }

  /** `mix_final` after the rows before `i` */
  function MixBefore(m: seq<Row>, i: nat): Row
    requires i <= |m|
  {
    if i == 0 then 0 else Either(MixBefore(m, i - 1), MixWith(m, i - 1, |m|))
  }

  /** The matrix without ghost keys: the mask only ever grows from row to row. */
  function Cleaned(m: seq<Row>): (r: seq<Row>)
    ensures |r| == |m|
  {
    seq(|m|, i requires 0 <= i < |m| => Without(m[i], MixBefore(m, i + 1)))
  }

  // ----- which keys survive

  predicate SharedByPair(m: seq<Row>, p: nat, q: nat, key: Row)
    requires p < |m| && q < |m|
  {
    Has(GhostsOf(m[p], m[q]), key)
  }

  /** Some ghost pair that begins at or above row `i` shares `key`. */
  ghost predicate SharedByGhosts(m: seq<Row>, i: nat, key: Row) {
    exists p, q :: 0 <= p <= i && p < q < |m| && SharedByPair(m, p, q, key)
  }

  lemma {:induction false} MixWithExactly(m: seq<Row>, i: nat, j: nat, key: Row)
    requires i < j <= |m| && IsKey(key)
    ensures Has(MixWith(m, i, j), key) <==> exists q :: i < q < j && SharedByPair(m, i, q, key)
    decreases j
  {
    hide Has, IsKey, Either, GhostsOf;
    HasEither(0, 0, key);
    if j == i + 1 {
    } else {
      MixWithExactly(m, i, j - 1, key);
      HasEither(MixWith(m, i, j - 1), GhostsOf(m[i], m[j - 1]), key);
      assert SharedByPair(m, i, j - 1, key) <==> Has(GhostsOf(m[i], m[j - 1]), key);
    }
  }

  lemma {:induction false} MixBeforeExactly(m: seq<Row>, i: nat, key: Row)
    requires i <= |m| && IsKey(key)
    ensures Has(MixBefore(m, i), key) <==> exists p, q :: 0 <= p < i && p < q < |m| && SharedByPair(m, p, q, key)
    decreases i
  {
    hide Has, IsKey, Either, SharedByPair, MixWith;
    HasEither(0, 0, key);
    if i == 0 {
    } else {
      MixBeforeExactly(m, i - 1, key);
      HasEither(MixBefore(m, i - 1), MixWith(m, i - 1, |m|), key);
      MixWithExactly(m, i - 1, |m|, key);
    }
  }

  /** A pressed key survives exactly when no ghost pair that begins at or above its row shares its column. */
  lemma SurvivesExactly(m: seq<Row>, i: nat, key: Row)
    requires i < |m| && IsKey(key)
    ensures Has(Cleaned(m)[i], key) <==> Has(m[i], key) && !SharedByGhosts(m, i, key)
  {
    hide Has, IsKey, Without, SharedByPair, MixBefore;
    MixBeforeExactly(m, i + 1, key);
    HasWithout(m[i], MixBefore(m, i + 1), key);
  }

  /** Two rows make a ghost of a key they share unless it is all that either of them holds. */
  lemma GhostsExactly(a: Row, b: Row, key: Row)
    requires IsKey(key)
    ensures Has(GhostsOf(a, b), key) <==> Has(a, key) && Has(b, key) && !(a == b == key)
  {
    hide AtMostOneBit;
    if Has(a, key) && Has(b, key) {
      if GhostPair(a, b) {
        SharedIsGhost(a, b, key);
        LoneIsNoPair(key);
      } else {
        LoneKey(a, b, key);
      }
    } else if Has(GhostsOf(a, b), key) {
      HasNothing(key);
      HasBoth(a, b, key);
    }
  }

  lemma HasNothing(key: Row)
    ensures !Has(0, key)
  {
  }

  lemma LoneIsNoPair(key: Row)
    requires IsKey(key)
    ensures !GhostPair(key, key)
  {
  }

  /**
   A key survives exactly when it is pressed, and whenever two rows share it, the upper of them this row or above, both
   hold nothing else.
   */
  lemma SurvivesUnlessShared(m: seq<Row>, i: nat, key: Row)
    requires i < |m| && IsKey(key)
    ensures Has(Cleaned(m)[i], key) <==>
              Has(m[i], key)
              && forall p, q :: 0 <= p <= i && p < q < |m| && Has(m[p], key) && Has(m[q], key) ==> m[p] == m[q] == key
  {
    hide IsKey, Cleaned, GhostsOf, Has;
    SurvivesExactly(m, i, key);
    forall p, q | 0 <= p <= i && p < q < |m|
      ensures SharedByPair(m, p, q, key) <==> Has(m[p], key) && Has(m[q], key) && !(m[p] == m[q] == key)
    {
      GhostsExactly(m[p], m[q], key);
    }
  }

  // ----- no rectangles

  lemma LowestKey(x: Row) returns (key: Row)
    requires x != 0
    ensures IsKey(key) && Has(x, key)
  {
    key := x & (0 - x);
  }

  lemma SharedIsGhost(a: Row, b: Row, key: Row)
    requires GhostPair(a, b) && Has(a, key) && Has(b, key) && IsKey(key)
    ensures Has(GhostsOf(a, b), key)
  {
  }

  lemma HasBoth(a: Row, b: Row, key: Row)
    requires Has(Both(a, b), key)
    ensures Has(a, key) && Has(b, key)
  {
  }

  lemma LoneKey(a: Row, b: Row, key: Row)
    requires IsKey(key) && Has(a, key) && Has(b, key) && !GhostPair(a, b)
    ensures a == b == key
  {
    KeyIsAtomic(a, key);
    KeyIsAtomic(b, key);
    SameRow(a, b);
    MeetsSelf(a, b, key);
    KeyIsAtomic(key, a);
  }

  lemma SameRow(a: Row, b: Row)
    ensures a ^ b == 0 ==> a == b
  {
  }

  lemma MeetsSelf(a: Row, b: Row, key: Row)
    ensures a & key == key && b & key == key && key != 0 ==> a & b != 0
    ensures a & a == a && key & a == a & key
  {
  }

  /** A key that two rows share as a possible ghost is gone from the upper of them. */
  lemma GhostsAreGone(m: seq<Row>, i: nat, j: nat, key: Row)
    requires i < j < |m| && IsKey(key) && GhostPair(m[i], m[j]) && Has(m[i], key) && Has(m[j], key)
    ensures !Has(Cleaned(m)[i], key)
  {
    hide Has, IsKey, GhostPair, Cleaned, GhostsOf;
    SharedIsGhost(m[i], m[j], key);
    assert SharedByPair(m, i, j, key);
    SurvivesExactly(m, i, key);
  }

  /**
   No rectangles: two rows of the result share a key only if the scanned rows were identical and held just
   that one key.
   */
  lemma SharedKeyIsLone(m: seq<Row>, i: nat, j: nat)
    requires i < j < |m| && Both(Cleaned(m)[i], Cleaned(m)[j]) != 0
    ensures m[i] == m[j] && IsKey(m[i])
  {
    hide Has, IsKey, Both, GhostPair, Cleaned, SharedByGhosts;
    var r := Cleaned(m);
    var key := LowestKey(Both(r[i], r[j]));
    HasBoth(r[i], r[j], key);
    SurvivesExactly(m, i, key);
    SurvivesExactly(m, j, key);
    if GhostPair(m[i], m[j]) {
      GhostsAreGone(m, i, j, key);
    } else {
      LoneKey(m[i], m[j], key);
    }
  }

  // ----- the code

  /** The inner loop of `kb_rmv_ghost_key` for row `i` */
  method MixRow(pressedMatrix: array<Row>, i: nat, before: Row) returns (mixFinal: Row)
    requires i < pressedMatrix.Length
    ensures mixFinal == Either(before, MixWith(pressedMatrix[..], i, pressedMatrix.Length))
  {
    hide AtMostOneBit, Either, Both, GhostPair, GhostsOf;
    mixFinal := before;
    EitherLaws(before, 0, 0);
    for j := i + 1 to pressedMatrix.Length
      invariant mixFinal == Either(before, MixWith(pressedMatrix[..], i, j))
    {
      var mix := Both(pressedMatrix[i], pressedMatrix[j]);
      GhostsAsTested(pressedMatrix[i], pressedMatrix[j]);
      EitherLaws(before, MixWith(pressedMatrix[..], i, j), GhostsOf(pressedMatrix[i], pressedMatrix[j]));
      EitherLaws(mixFinal, 0, 0);
      if mix != 0 && (!AtMostOneBit(mix) || pressedMatrix[i] ^ pressedMatrix[j] != 0) {
        mixFinal := Either(mixFinal, mix);
      }
    }
  }

  lemma GhostsAsTested(a: Row, b: Row)
    ensures GhostsOf(a, b) == if Both(a, b) != 0 && (!AtMostOneBit(Both(a, b)) || a ^ b != 0) then Both(a, b) else 0
  {
  }

  /** What a row is mixed with does not depend on the rows above it. */
  lemma {:induction false} MixWithBelow(m: seq<Row>, r: seq<Row>, i: nat, j: nat)
    requires i < j <= |m| == |r| && m[i..] == r[i..]
    ensures MixWith(m, i, j) == MixWith(r, i, j)
    decreases j
  {
    hide Either, GhostsOf;
    assert m[i] == m[i..][0] && r[i] == r[i..][0];
    if j == i + 1 {
    } else {
      MixWithBelow(m, r, i, j - 1);
      assert m[j - 1] == m[i..][j - 1 - i] && r[j - 1] == r[i..][j - 1 - i];
    }
  }

  /** `kb_rmv_ghost_key`, on any number of rows */
  method KbRmvGhostKey(pressedMatrix: array<Row>)
    modifies pressedMatrix
    ensures pressedMatrix[..] == Cleaned(old(pressedMatrix[..]))
  {
    hide Either, Without, MixWith;
    ghost var m := pressedMatrix[..];
    var mixFinal: Row := 0;
    for i := 0 to pressedMatrix.Length
      invariant mixFinal == MixBefore(m, i)
      invariant pressedMatrix[..i] == Cleaned(m)[..i]
      invariant pressedMatrix[i..] == m[i..]
    {
      assert pressedMatrix[..][i..] == m[i..];
      MixWithBelow(m, pressedMatrix[..], i, |m|);
      mixFinal := MixRow(pressedMatrix, i, mixFinal);
      assert pressedMatrix[i] == m[i..][0];
      pressedMatrix[i] := Without(pressedMatrix[i], mixFinal);
      assert pressedMatrix[i + 1..] == m[i + 1..];
    }
    assert pressedMatrix[..] == Cleaned(m);
  }
}
