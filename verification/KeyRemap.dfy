/**
 `kb_remap_key_row` and `kb_remap_key_code` of application/keyboard/keyboard.c: the pressed keys of a matrix,
 in the order of rows and columns, become the control bits and the first key codes of an event.
 */
module KeyRemap {
  import opened GhostKeys
  import opened PacketSlots

  const VK_CTRL: Byte := 0xe0
  const VK_RWIN: Byte := 0xe7
  const VK_ZOOM_IN: Byte := 0xb6
  const VK_ZOOM_OUT: Byte := 0xb7
  const VK_FN: Byte := 0xff
  const VK_EQUAL: Byte := 0x2e
  const VK_MINUS: Byte := 0x2d
  const VK_MSK_LCTRL: bv8 := 0x01

  // ----- which keys are pressed

  /** `m & 0x01` */
  predicate Low(m: Row) { m & 1 != 0 }

  /** `m >> 1` */
  function Rest(m: Row): Row { m >> 1 }

  function Twice(key: Row): Row { key << 1 }

  /** `BIT(col)` */
  function Bit(col: nat): Row { if col == 0 then 1 else Twice(Bit(col - 1)) }

  /** The columns from `col` on, before `cols`, whose bits `m` holds, lowest first. */
  function Columns(m: Row, col: nat, cols: nat): seq<nat>
    requires col <= cols
    decreases cols - col
  {
    if col == cols || m == 0 then []
    else if Low(m) then [col] + Columns(Rest(m), col + 1, cols)
    else Columns(Rest(m), col + 1, cols)
  }

  lemma ShiftMeets(m: Row, key: Row)
    ensures (m >> 1) & key != 0 <==> m & (key << 1) != 0
    ensures 0 & key == 0
  {
  }

  lemma RestHas(m: Row, key: Row)
    ensures Has(Rest(m), key) <==> Has(m, Twice(key))
    ensures !Has(0, key)
    ensures Has(m, 1) <==> Low(m)
  {
    ShiftMeets(m, key);
  }

  /** They are exactly the pressed ones. */
  lemma {:induction false} ColumnsAreThosePressed(m: Row, from: nat, cols: nat, col: nat)
    requires from <= cols
    ensures col in Columns(m, from, cols) <==> from <= col < cols && Has(m, Bit(col - from))
    decreases cols - from
  {
    hide Has, Low, Rest, Twice;
    if from < cols && m != 0 {
      ColumnsAreThosePressed(Rest(m), from + 1, cols, col);
      if from < col {
        RestHas(m, Bit(col - from - 1));
      } else {
        RestHas(m, 1);
      }
    } else if from <= col < cols {
      RestHas(0, Bit(col - from));
    }
  }

  predicate AscendingFrom(s: seq<nat>, from: nat, cols: nat) {
    && (forall j :: 0 <= j < |s| ==> from <= s[j] < cols)
    && (forall j, k :: 0 <= j < k < |s| ==> s[j] < s[k])
  }

  lemma AscendingOnto(t: seq<nat>, from: nat, cols: nat)
    requires AscendingFrom(t, from + 1, cols) && from < cols
    ensures AscendingFrom(t, from, cols) && AscendingFrom([from] + t, from, cols)
  {
  }

  lemma {:induction false} ColumnsAscend(m: Row, from: nat, cols: nat)
    requires from <= cols
    ensures AscendingFrom(Columns(m, from, cols), from, cols)
    decreases cols - from
  {
    hide Low, Rest;
    if from == cols || m == 0 {
    } else {
      ColumnsAscend(Rest(m), from + 1, cols);
      AscendingOnto(Columns(Rest(m), from + 1, cols), from, cols);
    }
  }

  // ----- what a key does

  function ControlBit(n: nat): bv8 { if n == 0 then 1 else ControlBit(n - 1) << 1 }

  function Or(a: bv8, b: bv8): bv8 { a | b }

  /** The control bits a key sets, where the keyboard has control keys (`KB_HAS_CTRL_KEYS`). */
  function Control(kc: Byte, hasCtrl: bool): bv8 {
    if hasCtrl && VK_CTRL <= kc <= VK_RWIN then ControlBit(kc - VK_CTRL)
    else if hasCtrl && (kc == VK_ZOOM_IN || kc == VK_ZOOM_OUT) then VK_MSK_LCTRL
    else 0
  }

  /** The key code it adds, if any. */
  function Code(kc: Byte, hasCtrl: bool): (s: seq<Byte>)
    ensures |s| <= 1
  {
    if !hasCtrl then [kc]
    else if VK_CTRL <= kc <= VK_RWIN || kc == VK_FN then []
    else if kc == VK_ZOOM_IN then [VK_EQUAL]
    else if kc == VK_ZOOM_OUT then [VK_MINUS]
    else [kc]
  }

  function Codes(ks: seq<Byte>, hasCtrl: bool): seq<Byte> {
    if |ks| == 0 then [] else Code(ks[0], hasCtrl) + Codes(ks[1..], hasCtrl)
  }

  function Controls(c: bv8, ks: seq<Byte>, hasCtrl: bool): bv8
    decreases |ks|
  {
    if |ks| == 0 then c else Controls(Or(c, Control(ks[0], hasCtrl)), ks[1..], hasCtrl)
  }

  /** The keys of `ks` that still count when there are `cnt` codes and at most `max` are returned. */
  function Kept(ks: seq<Byte>, cnt: nat, max: nat, hasCtrl: bool): seq<Byte>
    decreases |ks|
  {
    if |ks| == 0 then []
    else
      var cnt' := cnt + |Code(ks[0], hasCtrl)|;
      [ks[0]] + if cnt' >= max then [] else Kept(ks[1..], cnt', max, hasCtrl)
  }

  lemma {:induction false} CodesSplit(a: seq<Byte>, b: seq<Byte>, hasCtrl: bool)
    ensures Codes(a + b, hasCtrl) == Codes(a, hasCtrl) + Codes(b, hasCtrl)
  {
    hide Code;
    if |a| == 0 {
      assert a + b == b;
    } else {
      assert (a + b)[1..] == a[1..] + b;
      CodesSplit(a[1..], b, hasCtrl);
    }
  }

  /** The keys that count give the first codes of all, as many as are returned; every key counts until then. */
  lemma {:induction false} KeptGivesFirstCodes(ks: seq<Byte>, cnt: nat, max: nat, hasCtrl: bool)
    requires cnt < max
    ensures var k, all := Kept(ks, cnt, max, hasCtrl), Codes(ks, hasCtrl);
            && k <= ks
            && Codes(k, hasCtrl) == all[..if cnt + |all| < max then |all| else max - cnt]
            && (cnt + |all| < max ==> k == ks)
    decreases |ks|
  {
    hide Code;
    if |ks| == 0 {
    } else {
      var cnt' := cnt + |Code(ks[0], hasCtrl)|;
      var k := Kept(ks, cnt, max, hasCtrl);
      if cnt' < max {
        KeptGivesFirstCodes(ks[1..], cnt', max, hasCtrl);
        assert k[1..] == Kept(ks[1..], cnt', max, hasCtrl);
        assert ks[1..][..|k| - 1] == k[1..];
      } else {
        assert k[1..] == [];
        assert Codes([], hasCtrl) == [];
      }
    }
  }

  /** Keys count up to the one whose code is the last returned, and no further. */
  lemma {:induction false} KeptStopsAtOnce(ks: seq<Byte>, cnt: nat, max: nat, hasCtrl: bool)
    requires cnt < max
    ensures var k := Kept(ks, cnt, max, hasCtrl);
            |k| > 0 ==> k <= ks && cnt + |Codes(k[..|k| - 1], hasCtrl)| < max
    decreases |ks|
  {
    hide Code;
    if |ks| == 0 {
    } else {
      var cnt' := cnt + |Code(ks[0], hasCtrl)|;
      var k := Kept(ks, cnt, max, hasCtrl);
      if cnt' < max {
        KeptStopsAtOnce(ks[1..], cnt', max, hasCtrl);
        assert k[1..] == Kept(ks[1..], cnt', max, hasCtrl);
        if |k| > 1 {
          assert k[..|k| - 1][1..] == k[1..][..|k| - 2];
        }
      }
    }
  }

  // ----- what the keys of an event mean

  /** A key that stands for itself. */
  predicate Plain(kc: Byte) { !(0xe0 <= kc <= 0xe7) && kc != 0xb6 && kc != 0xb7 && kc != 0xff }

  predicate AllPlain(ks: seq<Byte>, hasCtrl: bool) { hasCtrl ==> forall j :: 0 <= j < |ks| ==> Plain(ks[j]) }

  /** Without control keys, or without any of the special ones pressed, the codes are the keys themselves. */
  lemma {:induction false} PlainKeysAreCodes(ks: seq<Byte>, hasCtrl: bool, c: bv8)
    requires AllPlain(ks, hasCtrl)
    ensures Codes(ks, hasCtrl) == ks && Controls(c, ks, hasCtrl) == c
  {
    if |ks| == 0 {
    } else {
      OrZero(c);
      PlainKeysAreCodes(ks[1..], hasCtrl, c);
    }
  }

  /**
   With control keys the codes are the keys in order, less the control keys and the function key, the zoom keys read
   as equal and minus: code `m` comes of key `ps[m]`.
   */
  lemma CodesInOrder(ks: seq<Byte>) returns (ps: seq<nat>)
    ensures |ps| == |Codes(ks, true)| && AscendingFrom(ps, 0, |ks|)
    ensures forall j :: 0 <= j < |ks| ==> (j in ps <==> !(0xe0 <= ks[j] <= 0xe7) && ks[j] != 0xff)
    ensures forall m :: 0 <= m < |ps| ==>
              Codes(ks, true)[m] == if ks[ps[m]] == 0xb6 then 0x2e else if ks[ps[m]] == 0xb7 then 0x2d else ks[ps[m]]
  {
    hide Codes, CodesAt;
    NothingDone(0, true);
    ps := NoCodesAt(ks);
    for n := 0 to |ks|
      invariant CodesAt(ps, Codes(ks[..n], true), ks, n)
    {
      OneMore(0, ks[..n], ks[n], true);
      assert ks[..n + 1] == ks[..n] + [ks[n]];
      ps := NextCodeAt(ps, Codes(ks[..n], true), ks, n);
    }
    assert ks[..|ks|] == ks;
    CodesAtEnd(ps, Codes(ks, true), ks);
  }

  /** The codes of the first `n` keys come of the keys at `ps`. */
  ghost predicate CodesAt(ps: seq<nat>, codes: seq<Byte>, ks: seq<Byte>, n: nat) {
    && n <= |ks| && |ps| == |codes| && AscendingFrom(ps, 0, n)
    && (forall j :: 0 <= j < n ==> (j in ps <==> !(0xe0 <= ks[j] <= 0xe7) && ks[j] != 0xff))
    && (forall m :: 0 <= m < |ps| ==>
          codes[m] == if ks[ps[m]] == 0xb6 then 0x2e else if ks[ps[m]] == 0xb7 then 0x2d else ks[ps[m]])
  }

  lemma NoCodesAt(ks: seq<Byte>) returns (ps: seq<nat>)
    ensures CodesAt(ps, [], ks, 0)
  {
    ps := [];
  }

  lemma NextCodeAt(ps: seq<nat>, codes: seq<Byte>, ks: seq<Byte>, n: nat) returns (next: seq<nat>)
    requires n < |ks| && CodesAt(ps, codes, ks, n)
    ensures CodesAt(next, codes + Code(ks[n], true), ks, n + 1)
  {
    if Code(ks[n], true) == [] {
      next := ps;
    } else {
      next := ps + [n];
      forall j | 0 <= j < n + 1 ensures j in next <==> j in ps || j == n {
      }
    }
  }

  lemma CodesAtEnd(ps: seq<nat>, codes: seq<Byte>, ks: seq<Byte>)
    requires CodesAt(ps, codes, ks, |ks|)
    ensures |ps| == |codes| && AscendingFrom(ps, 0, |ks|)
    ensures forall j :: 0 <= j < |ks| ==> (j in ps <==> !(0xe0 <= ks[j] <= 0xe7) && ks[j] != 0xff)
    ensures forall m :: 0 <= m < |ps| ==>
              codes[m] == if ks[ps[m]] == 0xb6 then 0x2e else if ks[ps[m]] == 0xb7 then 0x2d else ks[ps[m]]
  {
  }

  /** A control bit is set exactly when it was, or its control key counts, or for the first one a zoom key. */
  lemma {:induction false} ControlsExactly(c: bv8, ks: seq<Byte>, n: nat)
    requires n < 8
    ensures Controls(c, ks, true) & ((1 as bv8) << n) != 0 <==>
              c & ((1 as bv8) << n) != 0
              || exists j :: 0 <= j < |ks| && (ks[j] == 0xe0 + n || (n == 0 && (ks[j] == 0xb6 || ks[j] == 0xb7)))
    decreases |ks|
  {
    if |ks| == 0 {
    } else {
      var m := |ks| - 1;
      hide Controls, Control, Or;
      assert ks == ks[..m] + [ks[m]];
      OneMore(c, ks[..m], ks[m], true);
      ControlsExactly(c, ks[..m], n);
      ControlSets(Controls(c, ks[..m], true), ks[m], n);
    }
  }

  lemma ControlSets(c: bv8, kc: Byte, n: nat)
    requires n < 8
    ensures Or(c, Control(kc, true)) & ((1 as bv8) << n) != 0 <==>
              c & ((1 as bv8) << n) != 0 || kc == 0xe0 + n || (n == 0 && (kc == 0xb6 || kc == 0xb7))
  {
    if 0xe0 <= kc <= 0xe7 {
      ControlBitIsShift(kc - 0xe0);
      BitSets(c, kc - 0xe0, n);
    } else {
      BitSets(c, 0, n);
      OrZero(c);
    }
  }

  lemma ControlBitIsShift(n: nat)
    requires n < 8
    ensures ControlBit(n) == (1 as bv8) << n
  {
  }

  lemma BitSets(c: bv8, k: nat, n: nat)
    requires k < 8 && n < 8
    ensures (c | ((1 as bv8) << k)) & ((1 as bv8) << n) != 0 <==> c & ((1 as bv8) << n) != 0 || k == n
    ensures (1 as bv8) << 0 == 1
  {
  }

  /** Whether more keys count depends on how many codes there are so far. */
  lemma {:induction false} KeptSplits(a: seq<Byte>, b: seq<Byte>, cnt: nat, max: nat, hasCtrl: bool)
    requires cnt < max
    ensures var total := cnt + |Codes(a, hasCtrl)|;
            && (total >= max ==> Kept(a + b, cnt, max, hasCtrl) == Kept(a, cnt, max, hasCtrl))
            && (total < max ==> Kept(a + b, cnt, max, hasCtrl) == a + Kept(b, total, max, hasCtrl))
    decreases |a|
  {
    hide Code, Kept;
    if |a| == 0 {
      assert a + b == b;
      assert [] + Kept(b, cnt, max, hasCtrl) == Kept(b, cnt, max, hasCtrl);
    } else {
      var t, cnt' := a[1..], cnt + |Code(a[0], hasCtrl)|;
      assert a == [a[0]] + t && a + b == [a[0]] + (t + b);
      KeptFirst(a[0], t, cnt, max, hasCtrl);
      KeptFirst(a[0], t + b, cnt, max, hasCtrl);
      assert cnt + |Codes(a, hasCtrl)| == cnt' + |Codes(t, hasCtrl)|;
      if cnt' < max {
        KeptSplits(t, b, cnt', max, hasCtrl);
        var k := Kept(b, cnt' + |Codes(t, hasCtrl)|, max, hasCtrl);
        assert a + k == [a[0]] + (t + k);
      }
    }
  }

  /** `done` are the keys of `ks` that count so far, `rest` those still to look at. */
  ghost predicate StillKept(ks: seq<Byte>, n: nat, done: seq<Byte>, rest: seq<Byte>, cnt: nat, max: nat, hasCtrl: bool) {
    Kept(ks, n, max, hasCtrl) == done + Kept(rest, cnt, max, hasCtrl)
  }

  lemma AllKept(ks: seq<Byte>, n: nat, max: nat, hasCtrl: bool)
    ensures StillKept(ks, n, [], ks, n, max, hasCtrl)
  {
    hide Kept;
    assert [] + Kept(ks, n, max, hasCtrl) == Kept(ks, n, max, hasCtrl);
  }

  lemma OneKept(ks: seq<Byte>, n: nat, done: seq<Byte>, kc: Byte, rest: seq<Byte>, cnt: nat, max: nat, hasCtrl: bool)
    requires StillKept(ks, n, done, [kc] + rest, cnt, max, hasCtrl)
    ensures var cnt' := cnt + |Code(kc, hasCtrl)|;
            if cnt' >= max then Kept(ks, n, max, hasCtrl) == done + [kc]
            else StillKept(ks, n, done + [kc], rest, cnt', max, hasCtrl)
  {
    hide Kept, Code;
    KeptFirst(kc, rest, cnt, max, hasCtrl);
    var k := Kept(rest, cnt + |Code(kc, hasCtrl)|, max, hasCtrl);
    assert done + ([kc] + k) == (done + [kc]) + k;
  }

  lemma RowKept(ks: seq<Byte>, done: seq<Byte>, row: seq<Byte>, rest: seq<Byte>, cnt: nat, max: nat, hasCtrl: bool)
    requires StillKept(ks, 0, done, row + rest, cnt, max, hasCtrl) && cnt < max
    ensures var k := Kept(row, cnt, max, hasCtrl);
            var cnt' := cnt + |Codes(k, hasCtrl)|;
            if cnt' >= max then Kept(ks, 0, max, hasCtrl) == done + k
            else StillKept(ks, 0, done + k, rest, cnt', max, hasCtrl)
  {
    hide Kept, Codes;
    KeptSplits(row, rest, cnt, max, hasCtrl);
    KeptGivesFirstCodes(row, cnt, max, hasCtrl);
    var k, total := Kept(row, cnt, max, hasCtrl), cnt + |Codes(row, hasCtrl)|;
    if total < max {
      assert done + (k + Kept(rest, total, max, hasCtrl)) == (done + k) + Kept(rest, total, max, hasCtrl);
    }
  }

  lemma NoneLeft(ks: seq<Byte>, n: nat, done: seq<Byte>, cnt: nat, max: nat, hasCtrl: bool)
    requires StillKept(ks, n, done, [], cnt, max, hasCtrl)
    ensures Kept(ks, n, max, hasCtrl) == done
  {
  }

  // ----- the keys of a matrix

  /** `kb_k_mp`, by column and row */
  type KeyMap = seq<seq<Byte>>

  /** The key pressed where `row` and column `col` meet. */
  function KeyAt(km: KeyMap, row: nat, col: nat): Byte {
    if col < |km| && row < |km[col]| then km[col][row] else 0
  }

  /** The keys pressed in row `row`, from column `col` on. */
  function RowKeys(km: KeyMap, row: nat, m: Row, col: nat): seq<Byte>
    requires col <= |km|
    decreases |km| - col
  {
    if col == |km| || m == 0 then []
    else if Low(m) then [KeyAt(km, row, col)] + RowKeys(km, row, Rest(m), col + 1)
    else RowKeys(km, row, Rest(m), col + 1)
  }

  /** One key for each pressed column, in the same order. */
  lemma {:induction false} RowKeysFollowColumns(km: KeyMap, row: nat, m: Row, col: nat)
    requires col <= |km|
    ensures var cs, ks := Columns(m, col, |km|), RowKeys(km, row, m, col);
            |ks| == |cs| && forall j :: 0 <= j < |cs| ==> ks[j] == KeyAt(km, row, cs[j])
    decreases |km| - col
  {
    hide Low, Rest, KeyAt;
    if col == |km| || m == 0 {
    } else {
      RowKeysFollowColumns(km, row, Rest(m), col + 1);
      var cs, ks := Columns(Rest(m), col + 1, |km|), RowKeys(km, row, Rest(m), col + 1);
      KeysOnto(km, row, col, cs, ks);
    }
  }

  lemma KeysOnto(km: KeyMap, row: nat, col: nat, cs: seq<nat>, ks: seq<Byte>)
    requires |ks| == |cs| && forall j :: 0 <= j < |cs| ==> ks[j] == KeyAt(km, row, cs[j])
    ensures var cs', ks' := [col] + cs, [KeyAt(km, row, col)] + ks;
            forall j :: 0 <= j < |cs'| ==> ks'[j] == KeyAt(km, row, cs'[j])
  {
  }

  /** The keys pressed in the rows from `row` on. */
  function MatrixKeys(km: KeyMap, matrix: seq<Row>, row: nat): seq<Byte>
    requires row <= |matrix|
    decreases |matrix| - row
  {
    if row == |matrix| then [] else RowKeys(km, row, matrix[row], 0) + MatrixKeys(km, matrix, row + 1)
  }

  /** The bit of a column. */
  lemma BitIsShift(col: nat)
    requires col < 32
    ensures Bit(col) == (1 as Row) << col
    decreases col
  {
    if col == 0 {
    } else {
      BitIsShift(col - 1);
      ShiftOn(col - 1);
    }
  }

  lemma ShiftOn(col: nat)
    requires col < 31
    ensures ((1 as Row) << col) << 1 == (1 as Row) << (col + 1)
  {
  }

  /** Row by row and column by column, `s` comes before `t`. */
  predicate Before(s: (nat, nat), t: (nat, nat)) { s.0 < t.0 || (s.0 == t.0 && s.1 < t.1) }

  /** The keys of a matrix are those pressed, each once, row by row and column by column: key `j` is the one at `ps[j]`. */
  lemma KeysInOrder(km: KeyMap, matrix: seq<Row>) returns (ps: seq<(nat, nat)>)
    ensures |ps| == |MatrixKeys(km, matrix, 0)|
    ensures forall j :: 0 <= j < |ps| ==> MatrixKeys(km, matrix, 0)[j] == KeyAt(km, ps[j].0, ps[j].1)
    ensures forall j, k :: 0 <= j < k < |ps| ==> Before(ps[j], ps[k])
    ensures forall row: nat, col: nat :: (row, col) in ps <==> row < |matrix| && col < |km| && Has(matrix[row], Bit(col))
  {
    hide Has, Bit, KeyAt;
    ps := KeysFrom(km, matrix, 0);
  }

  lemma KeysFrom(km: KeyMap, matrix: seq<Row>, from: nat) returns (ps: seq<(nat, nat)>)
    requires from <= |matrix|
    ensures |ps| == |MatrixKeys(km, matrix, from)|
    ensures forall j :: 0 <= j < |ps| ==> MatrixKeys(km, matrix, from)[j] == KeyAt(km, ps[j].0, ps[j].1)
    ensures forall j, k :: 0 <= j < k < |ps| ==> Before(ps[j], ps[k])
    ensures forall row: nat, col: nat ::
              (row, col) in ps <==> from <= row < |matrix| && col < |km| && Has(matrix[row], Bit(col))
    decreases |matrix| - from
  {
    hide Has, Bit, KeyAt, RowKeys, Columns;
    if from == |matrix| {
      ps := [];
    } else {
      var cs := Columns(matrix[from], 0, |km|);
      var rest := KeysFrom(km, matrix, from + 1);
      RowKeysFollowColumns(km, from, matrix[from], 0);
      ColumnsAscend(matrix[from], 0, |km|);
      var own := seq(|cs|, j requires 0 <= j < |cs| => (from, cs[j]));
      forall row: nat, col: nat ensures (row, col) in own <==> row == from && col < |km| && Has(matrix[from], Bit(col)) {
        ColumnsAreThosePressed(matrix[from], 0, |km|, col);
        if (row, col) in own {
          var j :| 0 <= j < |own| && own[j] == (row, col);
          assert cs[j] == col;
        }
        if row == from && col in cs {
          var j :| 0 <= j < |cs| && cs[j] == col;
          assert own[j] == (row, col);
        }
      }
      ps := own + rest;
      forall j, k | 0 <= j < k < |ps| ensures Before(ps[j], ps[k]) {
        if j < |own| <= k {
          assert rest[k - |own|] in rest;
          assert (rest[k - |own|].0, rest[k - |own|].1) in rest;
        }
      }
    }
  }

  // ----- the code

  class KeyData {
    var cnt: nat
    var ctrlKey: bv8
    const keycode: array<Byte>

    ghost predicate Valid()
      reads this
    {
      cnt <= keycode.Length
    }

    constructor (max: nat)
      ensures Valid() && cnt == 0 && ctrlKey == 0 && keycode.Length == max && fresh(keycode)
    {
      cnt, ctrlKey := 0, 0;
      keycode := new Byte[max](_ => 0);
    }

    /** One key of the loop in `kb_remap_key_row` */
    method AddKey(kc: Byte, hasCtrl: bool)
      requires cnt < keycode.Length
      modifies this, keycode
      ensures Valid() && keycode[..cnt] == old(keycode[..cnt]) + Code(kc, hasCtrl)
      ensures ctrlKey == Or(old(ctrlKey), Control(kc, hasCtrl))
      ensures !hasCtrl || (!(0xe0 <= kc <= 0xe7) && kc != 0xb6 && kc != 0xb7 && kc != 0xff) ==>
                keycode[..cnt] == old(keycode[..cnt]) + [kc] && ctrlKey == old(ctrlKey)
      ensures hasCtrl && 0xe0 <= kc <= 0xe7 ==>
                keycode[..cnt] == old(keycode[..cnt]) && ctrlKey == Or(old(ctrlKey), (1 as bv8) << (kc - 0xe0))
      ensures hasCtrl && kc == 0xff ==> keycode[..cnt] == old(keycode[..cnt]) && ctrlKey == old(ctrlKey)
      ensures hasCtrl && kc == 0xb6 ==> keycode[..cnt] == old(keycode[..cnt]) + [0x2e] && ctrlKey == Or(old(ctrlKey), 1)
      ensures hasCtrl && kc == 0xb7 ==> keycode[..cnt] == old(keycode[..cnt]) + [0x2d] && ctrlKey == Or(old(ctrlKey), 1)
    {
      hide Or, ControlBit;
      OrZero(ctrlKey);
      if 0xe0 <= kc <= 0xe7 {
        ControlBitIsShift(kc - 0xe0);
      }
      if hasCtrl {
        if VK_CTRL <= kc <= VK_RWIN {
          ctrlKey := Or(ctrlKey, ControlBit(kc - VK_CTRL));
        } else if kc == VK_ZOOM_IN || kc == VK_ZOOM_OUT {
          ctrlKey := Or(ctrlKey, VK_MSK_LCTRL);
          Put(if kc == VK_ZOOM_IN then VK_EQUAL else VK_MINUS);
        } else if kc != VK_FN {
          Put(kc);
        }
      } else {
        Put(kc);
      }
    }

    method Put(kc: Byte)
      requires cnt < keycode.Length
      modifies `cnt, keycode
      ensures cnt == old(cnt) + 1 <= keycode.Length && keycode[..cnt] == old(keycode[..cnt]) + [kc]
    {
      keycode[cnt] := kc;
      cnt := cnt + 1;
    }

    /** The keys `done` have been added to the codes and control bits there were. */
    ghost predicate Added(codes: seq<Byte>, c: bv8, done: seq<Byte>, hasCtrl: bool)
      reads this, keycode
    {
      cnt <= keycode.Length && keycode[..cnt] == codes + Codes(done, hasCtrl) && ctrlKey == Controls(c, done, hasCtrl)
    }

    method AddNext(kc: Byte, hasCtrl: bool, ghost codes: seq<Byte>, ghost c: bv8, ghost done: seq<Byte>)
      requires cnt < keycode.Length && Added(codes, c, done, hasCtrl)
      modifies this, keycode
      ensures Added(codes, c, done + [kc], hasCtrl) && cnt == old(cnt) + |Code(kc, hasCtrl)|
    {
      hide Code, Control, Codes, Controls, Or;
      AddKey(kc, hasCtrl);
      OneMore(c, done, kc, hasCtrl);
    }

    /** `kb_remap_key_row` */
    method RemapRow(row: nat, bits: Row, max: nat, km: KeyMap, hasCtrl: bool)
      requires cnt < max <= keycode.Length && forall col :: 0 <= col < |km| ==> row < |km[col]|
      modifies this, keycode
      ensures Valid()
      ensures var k := Kept(RowKeys(km, row, bits, 0), old(cnt), max, hasCtrl);
              keycode[..cnt] == old(keycode[..cnt]) + Codes(k, hasCtrl) && ctrlKey == Controls(old(ctrlKey), k, hasCtrl)
    {
      hide Low, Rest, Code, Control, Or, Kept, Codes, Controls, RowKeys, KeyAt, StillKept;
      var m := bits;
      ghost var c, n, codes, ks := ctrlKey, cnt, keycode[..cnt], RowKeys(km, row, bits, 0);
      ghost var done: seq<Byte> := [];
      NothingDone(c, hasCtrl);
      AllKept(ks, n, max, hasCtrl);
      for i := 0 to |km|
        invariant cnt < max
        invariant Added(codes, c, done, hasCtrl)
        invariant StillKept(ks, n, done, RowKeys(km, row, m, i), cnt, max, hasCtrl)
      {
        RowKeysNext(km, row, m, i);
        if Low(m) {
          var kc := km[i][row];
          KeyInMap(km, row, i);
          OneKept(ks, n, done, kc, RowKeys(km, row, Rest(m), i + 1), cnt, max, hasCtrl);
          AddNext(kc, hasCtrl, codes, c, done);
          done := done + [kc];
          if cnt >= max {
            return;
          }
        }
        m := Rest(m);
        if m == 0 {
          RowKeysNext(km, row, m, i + 1);
          break;
        }
      }
      RowKeysEnd(km, row, m);
      NoneLeft(ks, n, done, cnt, max, hasCtrl);
    }

    /**
     `kb_remap_key_code` on a cleared event: the first codes of all keys pressed, as many as are returned, and
     the control bits of the keys up to the last of these.
     */
    method RemapCode(matrix: seq<Row>, max: nat, km: KeyMap, hasCtrl: bool)
      requires cnt == 0 < max <= keycode.Length && forall col :: 0 <= col < |km| ==> |matrix| <= |km[col]|
      modifies this, keycode
      ensures Valid()
      ensures var keys := MatrixKeys(km, matrix, 0);
              && keycode[..cnt]
                 == (if |Codes(keys, hasCtrl)| < max then Codes(keys, hasCtrl) else Codes(keys, hasCtrl)[..max])
              && ctrlKey == Controls(old(ctrlKey), Kept(keys, 0, max, hasCtrl), hasCtrl)
      ensures var keys := MatrixKeys(km, matrix, 0);
              AllPlain(keys, hasCtrl) ==>
                keycode[..cnt] == (if |keys| < max then keys else keys[..max]) && ctrlKey == old(ctrlKey)
    {
      hide RowKeys, Kept, Codes, Controls, Code, StillKept, AllPlain;
      KeysThemselves(MatrixKeys(km, matrix, 0), max, hasCtrl, ctrlKey);
      ghost var c, keys, done := ctrlKey, MatrixKeys(km, matrix, 0), [];
      NothingDone(c, hasCtrl);
      KeptGivesFirstCodes(keys, 0, max, hasCtrl);
      AllKept(keys, 0, max, hasCtrl);
      for i := 0 to |matrix|
        invariant cnt < max
        invariant keycode[..cnt] == Codes(done, hasCtrl) && ctrlKey == Controls(c, done, hasCtrl)
        invariant StillKept(keys, 0, done, MatrixKeys(km, matrix, i), cnt, max, hasCtrl)
      {
        ghost var row, rest, n := RowKeys(km, i, matrix[i], 0), MatrixKeys(km, matrix, i + 1), cnt;
        var m := matrix[i];
        RowKeysNext(km, i, m, 0);
        if m == 0 {
          assert [] + rest == rest;
          continue;
        }
        RowKept(keys, done, row, rest, n, max, hasCtrl);
        RemapRow(i, m, max, km, hasCtrl);
        ghost var k := Kept(row, n, max, hasCtrl);
        CodesSplit(done, k, hasCtrl);
        ControlsSplit(c, done, k, hasCtrl);
        done := done + k;
        if cnt >= max {
          return;
        }
      }
      NoneLeft(keys, 0, done, cnt, max, hasCtrl);
    }
  }

  lemma KeysThemselves(ks: seq<Byte>, max: nat, hasCtrl: bool, c: bv8)
    requires max > 0
    ensures AllPlain(ks, hasCtrl) ==>
              Codes(ks, hasCtrl) == ks && Controls(c, Kept(ks, 0, max, hasCtrl), hasCtrl) == c
  {
    hide Codes, Controls, Kept;
    if AllPlain(ks, hasCtrl) {
      KeptGivesFirstCodes(ks, 0, max, hasCtrl);
      PlainKeysAreCodes(ks, hasCtrl, c);
      PlainKeysAreCodes(Kept(ks, 0, max, hasCtrl), hasCtrl, c);
    }
  }

  lemma NothingDone(c: bv8, hasCtrl: bool)
    ensures Codes([], hasCtrl) == [] && Controls(c, [], hasCtrl) == c
  {
  }

  lemma KeyInMap(km: KeyMap, row: nat, col: nat)
    requires col < |km| && row < |km[col]|
    ensures KeyAt(km, row, col) == km[col][row]
  {
  }

  lemma RowKeysNext(km: KeyMap, row: nat, m: Row, col: nat)
    requires col <= |km|
    ensures col == |km| || m == 0 ==> RowKeys(km, row, m, col) == []
    ensures col < |km| && Low(m) ==> RowKeys(km, row, m, col) == [KeyAt(km, row, col)] + RowKeys(km, row, Rest(m), col + 1)
    ensures col < |km| && !Low(m) ==> RowKeys(km, row, m, col) == RowKeys(km, row, Rest(m), col + 1)
  {
  }

  lemma RowKeysEnd(km: KeyMap, row: nat, m: Row)
    ensures RowKeys(km, row, m, |km|) == []
  {
  }

  lemma KeptFirst(kc: Byte, rest: seq<Byte>, cnt: nat, max: nat, hasCtrl: bool)
    ensures var cnt' := cnt + |Code(kc, hasCtrl)|;
            Kept([kc] + rest, cnt, max, hasCtrl) == [kc] + if cnt' >= max then [] else Kept(rest, cnt', max, hasCtrl)
  {
    assert ([kc] + rest)[1..] == rest;
  }

  lemma {:induction false} ControlsSplit(c: bv8, a: seq<Byte>, b: seq<Byte>, hasCtrl: bool)
    ensures Controls(c, a + b, hasCtrl) == Controls(Controls(c, a, hasCtrl), b, hasCtrl)
    decreases |a|
  {
    hide Or, Control;
    if |a| == 0 {
      assert a + b == b;
    } else {
      assert (a + b)[1..] == a[1..] + b;
      ControlsSplit(Or(c, Control(a[0], hasCtrl)), a[1..], b, hasCtrl);
    }
  }

  lemma OneMore(c: bv8, done: seq<Byte>, kc: Byte, hasCtrl: bool)
    ensures Codes(done + [kc], hasCtrl) == Codes(done, hasCtrl) + Code(kc, hasCtrl)
    ensures Controls(c, done + [kc], hasCtrl) == Or(Controls(c, done, hasCtrl), Control(kc, hasCtrl))
  {
    hide Or, Control, Code;
    CodesSplit(done, [kc], hasCtrl);
    ControlsSplit(c, done, [kc], hasCtrl);
    assert [kc][1..] == [];
    assert Codes([kc], hasCtrl) == Code(kc, hasCtrl) + Codes([], hasCtrl);
    var c' := Controls(c, done, hasCtrl);
    assert Controls(c', [kc], hasCtrl) == Controls(Or(c', Control(kc, hasCtrl)), [], hasCtrl);
  }

  lemma OrZero(c: bv8)
    ensures Or(c, 0) == c
  {
  }
}
