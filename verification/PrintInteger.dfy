/** Integer fields of application/print/u_printf.c: `printi` over `prints`, and a reader that takes them back. */
module PrintInteger {
  import opened Bounds
  import opened Modulo
  import opened Options

  type Int32 = i: int | -0x8000_0000 <= i < 0x8000_0000
  type Base = b: nat | b == 10 || b == 16 witness 10

  /** `PAD_RIGHT` and `PAD_ZERO` */
  datatype Pad = Pad(right: bool, zero: bool)

  const PRINT_BUF_LEN: nat := 12

  // ----- digits

  function DigitChar(t: nat, upper: bool): (c: char)
    requires t < 16
  {
    if t < 10 then '0' + t as char else (if upper then 'A' else 'a') + (t - 10) as char
  }

  /** Dividing by a base leaves less, and a digit. */
  lemma DivisionFalls(u: nat, b: Base)
    ensures u % b < 16 && (u > 0 ==> u / b < u)
  {
    if b == 10 {
    } else {
    }
  }

  /** The digits of `u` without leading zeros; none for 0. */
  function Digits(u: nat, b: Base, upper: bool): string {
    if u == 0 then [] else Digits(u / b, b, upper) + [DigitChar(u % b, upper)]
  }

  /** `u` as the code holds it: the magnitude of a signed decimal, else the word itself */
  function Magnitude(i: Int32, b: Base, sg: bool): (u: nat)
    ensures u < 0x1_0000_0000
    ensures u == 0 <==> i == 0
  {
    if sg && b == 10 && i < 0 then -(i as int) else i % 0x1_0000_0000
  }

  predicate Negative(i: Int32, b: Base, sg: bool) { sg && b == 10 && i < 0 }

  /** The unpadded text. */
  function Natural(i: Int32, b: Base, sg: bool, upper: bool): string {
    if i == 0 then "0"
    else if Negative(i, b, sg) then "-" + Digits(Magnitude(i, b, sg), b, upper)
    else Digits(Magnitude(i, b, sg), b, upper)
  }

  function Repeat(c: char, n: nat): (s: string)
    ensures |s| == n
  {
    seq(n, _ => c)
  }

  /** What `prints` appends. */
  function Padded(s: string, width: int, pad: Pad): string {
    if |s| >= width then s
    else
      var fill := Repeat(if pad.zero then '0' else ' ', width - |s|);
      if pad.right then s + fill else fill + s
  }

  /** What `printi` appends: zeros go between the sign and the digits. */
  function Field(i: Int32, b: Base, sg: bool, width: nat, pad: Pad, upper: bool): string {
    if Negative(i, b, sg) && width > 0 && pad.zero
    then "-" + Padded(Digits(Magnitude(i, b, sg), b, upper), width - 1, pad)
    else Padded(Natural(i, b, sg, upper), width, pad)
  }

  // ----- lengths

  /** The field is as wide as asked for, or as its text needs. */
  lemma FieldLength(i: Int32, b: Base, sg: bool, width: nat, pad: Pad, upper: bool)
    ensures |Field(i, b, sg, width, pad, upper)| == Max(width, |Natural(i, b, sg, upper)|)
  {
  }

  lemma {:induction false} DigitCount(u: nat, b: Base, k: nat, upper: bool)
    requires u < Power(b, k)
    ensures |Digits(u, b, upper)| <= k
    decreases k
  {
    if u == 0 {
    } else {
      assert u / b < Power(b, k - 1);
      DigitCount(u / b, b, k - 1, upper);
    }
  }

  /** Ten digits are enough for a word. */
  lemma WordDigits(u: nat, b: Base, upper: bool)
    requires u < 0x1_0000_0000
    ensures |Digits(u, b, upper)| <= 10
  {
    if b == 10 {
      assert Power(10, 10) == 10_000_000_000 by {
        assert Power(10, 5) == 100_000;
        assert Power(10, 7) == 10_000_000;
        assert Power(10, 9) == 1_000_000_000;
      }
      DigitCount(u, 10, 10, upper);
    } else {
      assert Power(16, 8) == 0x1_0000_0000 by {
        assert Power(16, 3) == 4096;
        assert Power(16, 5) == 0x10_0000;
        assert Power(16, 7) == 0x1000_0000;
      }
      DigitCount(u, 16, 8, upper);
    }
  }

  /** `print_buf` holds the sign, the digits and the terminator of every field. */
  lemma BufferSuffices(i: Int32, b: Base, sg: bool, upper: bool)
    ensures |Natural(i, b, sg, upper)| + 1 <= PRINT_BUF_LEN
  {
    WordDigits(Magnitude(i, b, sg), b, upper);
  }

  // ----- reading a field back

  function DigitOf(c: char): Option<nat> {
    if '0' <= c <= '9' then Some((c - '0') as nat)
    else if 'a' <= c <= 'f' then Some((c - 'a') as nat + 10)
    else if 'A' <= c <= 'F' then Some((c - 'A') as nat + 10)
    else None
  }

  predicate Blank(s: string) { forall k :: 0 <= k < |s| ==> s[k] == ' ' }

  /** Digits from the left onto `acc`, then only blanks. */
  function ReadDigits(s: string, b: Base, acc: nat): Option<nat> {
    if Blank(s) then Some(acc)
    else
      match DigitOf(s[0])
      case None => None
      case Some(d) => if d < b then ReadDigits(s[1..], b, acc * b + d) else None
  }

  function SkipBlanks(s: string): string {
    if |s| > 0 && s[0] == ' ' then SkipBlanks(s[1..]) else s
  }

  function ReadUnsigned(s: string, b: Base): Option<nat> {
    if Blank(s) then None else ReadDigits(s, b, 0)
  }

  function Negated(v: Option<nat>): Option<int> {
    match v
    case None => None
    case Some(n) => Some(0 - n as int)
  }

  /** A number between blanks, with an optional minus sign. */
  function Read(s: string, b: Base): Option<int> {
    var t := SkipBlanks(s);
    if |t| > 0 && t[0] == '-' then Negated(ReadUnsigned(t[1..], b)) else ReadUnsigned(t, b)
  }

  lemma {:induction false} BlanksSkipped(j: nat, s: string)
    requires |s| > 0 && s[0] != ' '
    ensures SkipBlanks(Repeat(' ', j) + s) == s
  {
    if j == 0 {
      assert Repeat(' ', j) + s == s;
    } else {
      assert (Repeat(' ', j) + s)[1..] == Repeat(' ', j - 1) + s;
      BlanksSkipped(j - 1, s);
    }
  }

  lemma DigitReads(t: nat, upper: bool)
    requires t < 16
    ensures DigitOf(DigitChar(t, upper)) == Some(t)
    ensures DigitChar(t, upper) != ' ' && DigitChar(t, upper) != '-'
  {
  }

  lemma ReadStep(t: nat, upper: bool, rest: string, b: Base, acc: nat)
    requires t < b
    ensures ReadDigits([DigitChar(t, upper)] + rest, b, acc) == ReadDigits(rest, b, acc * b + t)
  {
    DigitReads(t, upper);
    var s := [DigitChar(t, upper)] + rest;
    assert s[0] != ' ' && s[1..] == rest;
  }

  lemma {:induction false} DigitsRead(u: nat, b: Base, upper: bool, rest: string)
    ensures ReadDigits(Digits(u, b, upper) + rest, b, 0) == ReadDigits(rest, b, u)
  {
    hide ReadDigits, DigitChar;
    if u == 0 {
      assert Digits(u, b, upper) + rest == rest;
    } else {
      var c := DigitChar(u % b, upper);
      assert Digits(u, b, upper) + rest == Digits(u / b, b, upper) + ([c] + rest);
      DigitsRead(u / b, b, upper, [c] + rest);
      ReadStep(u % b, upper, rest, b, u / b);
    }
  }

  /** Each zero after the digits multiplies the number. */
  lemma {:induction false} ZerosRead(k: nat, b: Base, acc: nat, rest: string)
    ensures ReadDigits(Repeat('0', k) + rest, b, acc) == ReadDigits(rest, b, acc * Power(b, k))
    decreases k
  {
    hide ReadDigits;
    if k == 0 {
      assert Repeat('0', k) + rest == rest;
    } else {
      assert Repeat('0', k) + rest == [DigitChar(0, false)] + (Repeat('0', k - 1) + rest);
      ReadStep(0, false, Repeat('0', k - 1) + rest, b, acc);
      ZerosRead(k - 1, b, acc * b, rest);
      assert acc * b * Power(b, k - 1) == acc * Power(b, k);
    }
  }

  /** The part of a field that matters: sign, zeros, digits and what follows. */
  function Text(neg: bool, k: nat, u: nat, b: Base, upper: bool, rest: string): string {
    var s := Repeat('0', k) + (Digits(u, b, upper) + rest);
    if neg then "-" + s else s
  }

  lemma UnsignedReads(k: nat, u: nat, b: Base, upper: bool, rest: string)
    requires k > 0 || u > 0
    ensures var s := Repeat('0', k) + (Digits(u, b, upper) + rest);
            |s| > 0 && s[0] != ' ' && s[0] != '-' && ReadUnsigned(s, b) == ReadDigits(rest, b, u)
  {
    ZerosRead(k, b, 0, Digits(u, b, upper) + rest);
    DigitsRead(u, b, upper, rest);
    if k == 0 {
      FirstDigit(u, b, upper);
    }
  }

  lemma {:induction false} FirstDigit(u: nat, b: Base, upper: bool)
    requires u > 0
    ensures var s := Digits(u, b, upper); |s| > 0 && s[0] != ' ' && s[0] != '-'
  {
    hide DigitChar;
    DivisionFalls(u, b);
    DigitReads(u % b, upper);
    var c := DigitChar(u % b, upper);
    assert Digits(u, b, upper) == Digits(u / b, b, upper) + [c];
    if u / b == 0 {
      assert Digits(0, b, upper) == [];
    } else {
      FirstDigit(u / b, b, upper);
    }
  }

  lemma TextReads(j: nat, neg: bool, k: nat, u: nat, b: Base, upper: bool, rest: string)
    requires k > 0 || u > 0
    ensures var v := ReadDigits(rest, b, u);
            Read(Repeat(' ', j) + Text(neg, k, u, b, upper, rest), b) == if neg then Negated(v) else v
  {
    hide ReadDigits, ReadUnsigned;
    var s := Repeat('0', k) + (Digits(u, b, upper) + rest);
    UnsignedReads(k, u, b, upper, rest);
    BlanksSkipped(j, Text(neg, k, u, b, upper, rest));
    assert neg ==> Text(neg, k, u, b, upper, rest)[1..] == s;
    assert !neg ==> Text(neg, k, u, b, upper, rest) == s;
  }

  lemma PowerGrows(b: Base, k: nat, u: nat)
    requires k > 0 && u > 0
    ensures u * Power(b, k) > u
  {
    if k == 1 {
      assert Power(b, 1) == b;
    } else {
      PowerGrows(b, k - 1, u);
      assert u * Power(b, k) == b * (u * Power(b, k - 1));
    }
  }

  lemma BlanksRead(n: nat, b: Base, u: nat)
    ensures ReadDigits(Repeat(' ', n), b, u) == Some(u)
  {
  }

  lemma ZerosOnly(n: nat, b: Base, u: nat)
    ensures ReadDigits(Repeat('0', n), b, u) == Some(u * Power(b, n))
  {
    ZerosRead(n, b, u, []);
    assert Repeat('0', n) + [] == Repeat('0', n);
    assert ReadDigits([], b, u * Power(b, n)) == Some(u * Power(b, n));
  }

  /** How far the text is from filling the field. */
  function Short(i: Int32, b: Base, sg: bool, width: nat, upper: bool): nat {
    Max(width - |Natural(i, b, sg, upper)|, 0)
  }

  function LeftBlanks(fill: nat, pad: Pad): nat { if pad.zero || pad.right then 0 else fill }

  function LeftZeros(i: Int32, fill: nat, pad: Pad): nat {
    (if pad.zero && !pad.right then fill else 0) + if i == 0 then 1 else 0
  }

  function RightFill(fill: nat, pad: Pad): string {
    if pad.right then Repeat(if pad.zero then '0' else ' ', fill) else []
  }

  lemma PaddedShape(s: string, width: int, pad: Pad, fill: nat)
    requires fill == Max(width - |s|, 0)
    ensures Padded(s, width, pad)
         == Repeat(' ', LeftBlanks(fill, pad))
          + (Repeat('0', if pad.zero && !pad.right then fill else 0) + (s + RightFill(fill, pad)))
  {
    assert Repeat(' ', 0) == Repeat('0', 0) == [];
    if fill == 0 || pad.right {
      assert Padded(s, width, pad) == s + RightFill(fill, pad);
    } else if pad.zero {
      assert Padded(s, width, pad) == Repeat('0', fill) + s;
    } else {
      assert Padded(s, width, pad) == Repeat(' ', fill) + s;
    }
  }

  lemma SignedText(zeros: nat, u: nat, b: Base, upper: bool, rest: string)
    ensures Text(true, zeros, u, b, upper, rest) == "-" + (Repeat('0', zeros) + (Digits(u, b, upper) + rest))
    ensures Text(false, zeros, u, b, upper, rest) == Repeat('0', zeros) + (Digits(u, b, upper) + rest)
    ensures Text(true, 0, u, b, upper, rest) == Repeat('0', 0) + (("-" + Digits(u, b, upper)) + rest)
    ensures Text(false, zeros + 1, 0, b, upper, rest) == Repeat('0', zeros) + ("0" + rest)
  {
  }

  /** Every field is blanks, sign, zeros, digits, and then blanks or zeros. */
  lemma FieldShape(i: Int32, b: Base, sg: bool, width: nat, pad: Pad, upper: bool)
    ensures var fill := Short(i, b, sg, width, upper);
            var text := Text(Negative(i, b, sg), LeftZeros(i, fill, pad), Magnitude(i, b, sg),
                b, upper, RightFill(fill, pad));
            Field(i, b, sg, width, pad, upper) == Repeat(' ', LeftBlanks(fill, pad)) + text
  {
    hide Digits, Padded, Text, RightFill;
    var fill := Short(i, b, sg, width, upper);
    var u := Magnitude(i, b, sg);
    var left := if pad.zero && !pad.right then fill else 0;
    SignedText(left, u, b, upper, RightFill(fill, pad));
    if Negative(i, b, sg) && width > 0 && pad.zero {
      PaddedShape(Digits(u, b, upper), width - 1, pad, fill);
      assert Repeat(' ', LeftBlanks(fill, pad)) == [];
    } else {
      PaddedShape(Natural(i, b, sg, upper), width, pad, fill);
    }
  }

  /** Zeros to the right of a number other than 0 change what it says. */
  predicate Misleads(i: Int32, b: Base, sg: bool, width: nat, pad: Pad, upper: bool) {
    pad.right && pad.zero && i != 0 && width > |Natural(i, b, sg, upper)|
  }

  /** A field reads back as the number printed, for every word, base, width and padding, but for that one case. */
  lemma FieldReadsBack(i: Int32, b: Base, sg: bool, width: nat, pad: Pad, upper: bool)
    ensures Read(Field(i, b, sg, width, pad, upper), b)
            == Some(if sg && b == 10 then i as int else if i < 0 then i + 0x1_0000_0000 else i)
       <==> !Misleads(i, b, sg, width, pad, upper)
  {
    hide Read, Text, Field, Digits, ReadDigits;
    var fill := Short(i, b, sg, width, upper);
    var u := Magnitude(i, b, sg);
    var rest := RightFill(fill, pad);
    FieldShape(i, b, sg, width, pad, upper);
    TextReads(LeftBlanks(fill, pad), Negative(i, b, sg), LeftZeros(i, fill, pad), u, b, upper, rest);
    if pad.right && pad.zero {
      ZerosOnly(fill, b, u);
      if fill > 0 && u > 0 {
        PowerGrows(b, fill, u);
      } else {
        assert u * Power(b, fill) == u;
      }
    } else {
      assert rest == Repeat(' ', if pad.right then fill else 0);
      BlanksRead(|rest|, b, u);
    }
  }

  lemma DigitsNext(u: nat, b: Base, upper: bool)
    requires u > 0
    ensures Digits(u, b, upper) == Digits(u / b, b, upper) + [DigitChar(u % b, upper)]
  {
  }

  lemma TextOf42()
    ensures Natural(42, 10, true, false) == "42"
  {
    hide Digits;
    DigitsNext(42, 10, false);
    DigitsNext(4, 10, false);
    NoDigits(10, false);
    assert [] + ['4'] + ['2'] == "42";
  }

  lemma NoDigits(b: Base, upper: bool)
    ensures Digits(0, b, upper) == []
  {
  }

  /** `%-05d` prints 42 as 42000. */
  lemma MisleadingField()
    ensures Misleads(42, 10, true, 5, Pad(true, true), false)
    ensures Field(42, 10, true, 5, Pad(true, true), false) == "42000"
  {
    hide Natural;
    TextOf42();
    assert "42" + Repeat('0', 3) == "42000";
  }

  // ----- the code

  class Printer {
    /** Everything printed so far, by `putchar` or into the caller's string. */
    var out: string

    constructor ()
      ensures out == []
    {
      out := [];
    }

    method PrintChar(c: char)
      modifies this
      ensures out == old(out) + [c]
    {
      out := out + [c];
    }

    /** The loop `for (; width > 0; --width)` */
    method Fill(padchar: char, width: int) returns (left: int, pc: nat)
      modifies this
      ensures out == old(out) + Repeat(padchar, pc)
      ensures pc == Max(width, 0) && left <= 0
    {
      left, pc := width, 0;
      while left > 0
        invariant left + pc == width && (width <= 0 ==> pc == 0) && (width > 0 ==> left >= 0)
        invariant out == old(out) + Repeat(padchar, pc)
      {
        PrintChar(padchar);
        pc := pc + 1;
        left := left - 1;
      }
    }

    /** `prints`, on the characters before the terminator */
    method Prints(text: string, width: int, pad: Pad) returns (pc: nat)
      modifies this
      ensures out == old(out) + Padded(text, width, pad)
      ensures out == old(out) +
                     if width <= |text| then text
                     else if pad.right then text + Repeat(if pad.zero then '0' else ' ', width - |text|)
                     else Repeat(if pad.zero then '0' else ' ', width - |text|) + text
      ensures pc == |Padded(text, width, pad)|
    {
      var w, padchar := width, ' ';
      pc := 0;
      if w > 0 {
        w := if |text| >= w then 0 else w - |text|;
        if pad.zero {
          padchar := '0';
        }
      }
      ghost var fill := Repeat(padchar, Max(w, 0));
      if !pad.right {
        w, pc := Fill(padchar, w);
      }
      ghost var mid, done := out, pc;
      for k := 0 to |text|
        invariant out == mid + text[..k] && pc == done + k
      {
        PrintChar(text[k]);
        pc := pc + 1;
      }
      var last: nat;
      w, last := Fill(padchar, w);
      pc := pc + last;
    }

    /** `printi` */
    method Printi(i: Int32, b: Base, sg: bool, width: nat, pad: Pad, upper: bool) returns (pc: nat)
      modifies this
      ensures out == old(out) + Field(i, b, sg, width, pad, upper)
      ensures pc == |Field(i, b, sg, width, pad, upper)|
    {
      hide Padded, Digits;
      var printBuf := new char[PRINT_BUF_LEN];
      if i == 0 {
        printBuf[0], printBuf[1] := '0', '\0';
        assert printBuf[..1] == "0";
        pc := Prints(printBuf[..1], width, pad);
        return;
      }
      var neg, u := false, i % 0x1_0000_0000;
      if sg && b == 10 && i < 0 {
        neg, u := true, -(i as int) % 0x1_0000_0000;
      }
      WordDigits(u, b, upper);
      var s := PRINT_BUF_LEN - 1;
      printBuf[s] := '\0';
      s := StoreDigits(printBuf, u, b, upper);
      var w, signed := width, 0;
      if neg {
        if width > 0 && pad.zero {
          PrintChar('-');
          signed := 1;
          w := w - 1;
        } else {
          ghost var digits := printBuf[s..PRINT_BUF_LEN - 1];
          s := s - 1;
          printBuf[s] := '-';
          assert printBuf[s..PRINT_BUF_LEN - 1] == "-" + digits;
        }
      }
      ghost var before := out;
      pc := Prints(printBuf[s..PRINT_BUF_LEN - 1], w, pad);
      assert out == old(out) + Field(i, b, sg, width, pad, upper) by {
        assert neg && width > 0 && pad.zero ==> before == old(out) + "-";
        assert old(out) + "-" + Padded(Digits(u, b, upper), w, pad) ==
            old(out) + ("-" + Padded(Digits(u, b, upper), w, pad));
      }
      pc := signed + pc;
    }

    /** The character of one digit */
    method ToChar(digit: nat, upper: bool) returns (c: char)
      requires digit < 16
      ensures c == DigitChar(digit, upper)
      ensures c == (if upper then "0123456789ABCDEF" else "0123456789abcdef")[digit]
    {
      var t: int := digit;
      if t >= 10 {
        t := t + (if upper then 'A' else 'a') as int - '0' as int - 10;
      }
      c := (t + '0' as int) as char;
    }

    /** The digit loop, which fills the buffer backwards from its terminator */
    method StoreDigits(printBuf: array<char>, u: nat, b: Base, upper: bool) returns (s: nat)
      requires printBuf.Length == PRINT_BUF_LEN && |Digits(u, b, upper)| < PRINT_BUF_LEN - 1
      modifies printBuf
      ensures 0 < s <= PRINT_BUF_LEN - 1
      ensures printBuf[s..PRINT_BUF_LEN - 1] == Digits(u, b, upper)
    {
      hide DigitChar, Digits;
      s := PRINT_BUF_LEN - 1;
      var v: nat := u;
      while v > 0
        invariant s + |Digits(u, b, upper)| == |Digits(v, b, upper)| + PRINT_BUF_LEN - 1
        invariant s <= PRINT_BUF_LEN - 1
        invariant Digits(v, b, upper) + printBuf[s..PRINT_BUF_LEN - 1] == Digits(u, b, upper)
      {
        DivisionFalls(v, b);
        DigitsNext(v, b, upper);
        ghost var tail := printBuf[s..PRINT_BUF_LEN - 1];
        var c := ToChar(v % b, upper);
        s := s - 1;
        printBuf[s] := c;
        assert printBuf[s..PRINT_BUF_LEN - 1] == [DigitChar(v % b, upper)] + tail;
        v := v / b;
      }
      NoDigits(b, upper);
    }
  }
}
