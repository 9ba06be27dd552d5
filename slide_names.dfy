/** File names of saved slides: `{directory}/slide_{n}.png`, the slide number
    written in decimal without zero-padding. */
module SlideNames {

  predicate IsDigit(c: char)
  {
    '0' <= c <= '9'
  }

  function DigitChar(d: nat): (c: char)
    requires d < 10
    ensures IsDigit(c)
  {
    ('0' as int + d) as char
  }

  function DigitValue(c: char): (d: nat)
    requires IsDigit(c)
    ensures d < 10
  {
    c as int - '0' as int
  }

  /** The decimal numeral of n, as Python's str(n) formats a non-negative
      integer. */
  function Decimal(n: nat): (s: string)
    ensures |s| >= 1
    ensures forall k :: 0 <= k < |s| ==> IsDigit(s[k])
    ensures s[0] == '0' ==> n == 0
  {
    if n < 10 then [DigitChar(n)] else Decimal(n / 10) + [DigitChar(n % 10)]
  }

  /** The number a string of decimal digits denotes. */
  function ParseDecimal(s: string): nat
    requires forall k :: 0 <= k < |s| ==> IsDigit(s[k])
  {
    if s == [] then 0 else 10 * ParseDecimal(s[..|s| - 1]) + DigitValue(s[|s| - 1])
  }

  /** The numeral reads back as the number written: no two slide numbers
      share a numeral. */
  lemma {:induction false} ParseDecimalInverse(n: nat)
    ensures ParseDecimal(Decimal(n)) == n
  {
    var s := Decimal(n);
    if n < 10 {
      assert s[..|s| - 1] == [];
    } else {
      ParseDecimalInverse(n / 10);
      assert s[..|s| - 1] == Decimal(n / 10);
    }
  }

  const SlidePrefix := "/slide_"
  const SlideSuffix := ".png"

  /** The name under which slide n is saved in `directory`. */
  function SlideFileName(directory: string, n: nat): string
  {
    directory + SlidePrefix + Decimal(n) + SlideSuffix
  }

  /** The name is the directory, the `/slide_` prefix, the numeral and the
      `.png` suffix, in that order. */
  lemma SlideFileNameParts(directory: string, n: nat)
    ensures var name := SlideFileName(directory, n);
            |name| == |directory| + |SlidePrefix| + |Decimal(n)| + |SlideSuffix| &&
            name[..|directory| + |SlidePrefix|] == directory + SlidePrefix &&
            name[|name| - |SlideSuffix|..] == SlideSuffix &&
            name[|directory| + |SlidePrefix|..|name| - |SlideSuffix|] == Decimal(n)
  {
  }

  /** The slide number is recovered from the file name. */
  lemma SlideNumberFromFileName(directory: string, n: nat)
    ensures var name := SlideFileName(directory, n);
            |directory| + |SlidePrefix| <= |name| - |SlideSuffix| &&
            ParseDecimal(name[|directory| + |SlidePrefix|..|name| - |SlideSuffix|]) == n
  {
    SlideFileNameParts(directory, n);
    ParseDecimalInverse(n);
  }

  /** Two slides with different numbers never overwrite each other's file. */
  lemma SlideFileNamesDistinct(directory: string, m: nat, n: nat)
    requires m != n
    ensures SlideFileName(directory, m) != SlideFileName(directory, n)
  {
    SlideNumberFromFileName(directory, m);
    SlideNumberFromFileName(directory, n);
  }
}
