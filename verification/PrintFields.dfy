/** How the fields of application/print/u_printf.c look: their letters, their sides and their leading digit. */
module PrintFields {
  import opened Bounds
  import opened PrintInteger

  /** Digits and signs, and letters of the one case. */
  predicate OneCase(s: string, upper: bool) {
    forall k :: 0 <= k < |s| ==> if upper then !('a' <= s[k] <= 'z') else !('A' <= s[k] <= 'Z')
  }

  lemma {:induction false} DigitsOneCase(u: nat, b: Base, upper: bool)
    ensures OneCase(Digits(u, b, upper), upper)
  {
    if u == 0 {
    } else {
      DivisionFalls(u, b);
      DigitsOneCase(u / b, b, upper);
    }
  }

  /** A `%x` field has no upper-case letter, a `%X` field no lower-case one. */
  lemma FieldOneCase(i: Int32, b: Base, sg: bool, width: nat, pad: Pad, upper: bool)
    ensures OneCase(Field(i, b, sg, width, pad, upper), upper)
  {
    hide Digits, Padded;
    var u, digits := Magnitude(i, b, sg), Digits(Magnitude(i, b, sg), b, upper);
    DigitsOneCase(u, b, upper);
    PaddedOneCase(Natural(i, b, sg, upper), width, pad, upper);
    PaddedOneCase(digits, width - 1, pad, upper);
  }

  lemma PaddedOneCase(s: string, width: int, pad: Pad, upper: bool)
    requires OneCase(s, upper)
    ensures OneCase(Padded(s, width, pad), upper)
  {
  }

  lemma RepeatsOne(c: char, n: nat)
    ensures forall k :: 0 <= k < n ==> Repeat(c, n)[k] == c
  {
  }

  /** The digits begin with one that is not zero. */
  lemma {:induction false} LeadingDigit(u: nat, b: Base, upper: bool)
    requires u > 0
    ensures |Digits(u, b, upper)| > 0 && Digits(u, b, upper)[0] != '0' && Digits(u, b, upper)[0] != '-'
  {
    DivisionFalls(u, b);
    if u < b {
      assert u / b == 0 && u % b == u;
      DigitsNext(u, b, upper);
      NoDigits(b, upper);
    } else {
      assert u / b > 0;
      LeadingDigit(u / b, b, upper);
      DigitsNext(u, b, upper);
    }
  }

  /** An unpadded text has a sign exactly when a signed decimal is negative, and no leading zero unless it is 0. */
  lemma NaturalShape(i: Int32, b: Base, sg: bool, upper: bool)
    ensures var s := Natural(i, b, sg, upper);
            var from := if sg && b == 10 && i < 0 then 1 else 0;
            && |s| > from && (from == 1 <==> s[0] == '-')
            && (s[from] == '0' <==> i == 0)
  {
    hide Digits;
    if i != 0 {
      LeadingDigit(Magnitude(i, b, sg), b, upper);
    }
  }

  /**
   Where the padding goes: behind the text if it is to be left-aligned, in front if not, and zeros in front go between
   the sign and the digits.
   */
  lemma FieldSides(i: Int32, b: Base, sg: bool, width: nat, pad: Pad, upper: bool)
    ensures var s, f := Natural(i, b, sg, upper), Field(i, b, sg, width, pad, upper);
            var fill := Repeat(if pad.zero then '0' else ' ', if width > |s| then width - |s| else 0);
            if pad.right then f == s + fill
            else if pad.zero && sg && b == 10 && i < 0 then f == ['-'] + fill + s[1..]
            else f == fill + s
  {
    hide Digits;
  }
}
