/** Integers into the log line: digits from the low end, then reversed in place. */
module Logging {
  import opened AsyncLogger
  import opened Modular

  const DIGITS := "9876543210123456789"
  const ZERO_AT := 9
  const MAX_NUMERIC_SIZE := 48

  /** The C operators: truncating division and its remainder. */
  function Quotient(i: int, d: int): (q: int)
    requires d > 0
    ensures i >= 0 ==> q == i / d
    ensures i < 0 ==> q == -(-i / d)
  {
    if i >= 0 then i / d else -(-i / d)
  }

  function CRemainder(i: int, d: int): (r: int)
    requires d > 0
    ensures i == Quotient(i, d) * d + r
    ensures -d < r < d
  {
    if i >= 0 then i % d else -(-i % d)
  }

  function Magnitude(i: int): nat { if i < 0 then -i else i }

  function Digit(d: nat): char
    requires d < 10
  {
    "0123456789"[d]
  }

  /** The decimal numeral. */
  function Numeral(n: nat): (s: string)
    ensures s != []
  {
    if n < 10 then [Digit(n)] else Numeral(n / 10) + [Digit(n % 10)]
  }

  function Decimal(v: int): string {
    (if v < 0 then "-" else "") + Numeral(Magnitude(v))
  }

  // --------------------------------------------------- what a numeral means

  ghost predicate AllDigits(s: string) {
    forall i :: 0 <= i < |s| ==> '0' <= s[i] <= '9'
  }

  ghost function ParseNumeral(s: string): int {
    if s == [] then 0 else 10 * ParseNumeral(s[..|s| - 1]) + (s[|s| - 1] as int - '0' as int)
  }

  ghost function Parse(s: string): int {
    if s != [] && s[0] == '-' then -ParseNumeral(s[1..]) else ParseNumeral(s)
  }

  /** Digits without a leading zero. */
  ghost predicate Canonical(s: string) {
    s != [] && AllDigits(s) && (s[0] == '0' ==> |s| == 1)
  }

  lemma DigitValue(d: nat)
    requires d < 10
    ensures Digit(d) as int == '0' as int + d
  {
  }

  lemma {:induction false} NumeralParses(n: nat)
    ensures ParseNumeral(Numeral(n)) == n
  {
    DigitValue(n % 10);
    if n >= 10 {
      NumeralParses(n / 10);
      assert Numeral(n)[..|Numeral(n)| - 1] == Numeral(n / 10);
    } else {
      assert [Digit(n)][..0] == [];
    }
  }

  lemma {:induction false} NumeralIsCanonical(n: nat)
    ensures Canonical(Numeral(n)) && (Numeral(n)[0] == '0' <==> n == 0)
  {
    DigitValue(n % 10);
    if n >= 10 {
      NumeralIsCanonical(n / 10);
    }
  }

  lemma {:induction false} ParsePositive(s: string)
    requires Canonical(s) && s[0] != '0'
    ensures ParseNumeral(s) > 0
  {
    if |s| > 1 {
      ParsePositive(s[..|s| - 1]);
    } else {
      assert s[..0] == [];
    }
  }

  /** There is one canonical numeral for each number. */
  lemma {:induction false} CanonicalUnique(s: string)
    requires Canonical(s)
    ensures ParseNumeral(s) >= 0 && s == Numeral(ParseNumeral(s))
  {
    var h, t := s[..|s| - 1], s[|s| - 1];
    var d := t as int - '0' as int;
    DigitValue(d);
    if |s| == 1 {
      assert h == [];
    } else {
      CanonicalUnique(h);
      ParsePositive(h);
      var n := ParseNumeral(s);
      assert n / 10 == ParseNumeral(h) && n % 10 == d && n >= 10;
      assert s == h + [t];
    }
  }

  /** Reading a printed integer gives it back, negative ones included. */
  lemma DecimalParses(v: int)
    ensures Parse(Decimal(v)) == v
  {
    NumeralParses(Magnitude(v));
    NumeralIsCanonical(Magnitude(v));
    if v < 0 {
      assert Decimal(v)[1..] == Numeral(Magnitude(v));
    } else {
      assert Decimal(v) == Numeral(v);
    }
  }

  lemma {:induction false} NumeralLength(n: nat, k: nat)
    requires n < Pow10(k) && k > 0
    ensures |Numeral(n)| <= k
  {
    if n >= 10 {
      assert Pow10(1) == 10;
      NumeralLength(n / 10, k - 1);
    }
  }

  lemma PowTwenty()
    ensures Pow10(20) == 100_000_000_000_000_000_000
  {
    assert Pow10(5) == 100_000;
    assert Pow10(10) == 10_000_000_000;
    assert Pow10(15) == 1_000_000_000_000_000;
  }

  // --------------------------------------------------------------- printing

  function Reversed(s: string): (r: string)
    ensures |r| == |s| && forall i :: 0 <= i < |s| ==> r[i] == s[|s| - 1 - i]
  {
    seq(|s|, i requires 0 <= i < |s| => s[|s| - 1 - i])
  }

  /** std::reverse on the first n characters. */
  method ReverseFirst(a: array<char>, n: nat)
    requires n <= a.Length
    modifies a
    ensures a[..n] == Reversed(old(a[..n]))
  {
    var lo, hi := 0, n;
    while lo < hi
      invariant 0 <= lo <= n && lo + hi == n && lo <= hi + 1
      invariant forall j :: 0 <= j < lo ==> a[j] == old(a[n - 1 - j]) && a[n - 1 - j] == old(a[j])
      invariant forall j :: lo <= j < hi ==> a[j] == old(a[j])
    {
      hi := hi - 1;
      if lo < hi {
        a[lo], a[hi] := a[hi], a[lo];
      }
      lo := lo + 1;
    }
  }

  /** The mirrored table turns a remainder of either sign into its digit. */
  lemma MirroredTable(lsd: int)
    requires -10 < lsd < 10
    ensures DIGITS[ZERO_AT + lsd] == Digit(Magnitude(lsd))
  {
  }

  /** What the next digit does to the part still to print. */
  lemma NextDigit(i: int)
    ensures Magnitude(Quotient(i, 10)) == Magnitude(i) / 10 && Magnitude(CRemainder(i, 10)) == Magnitude(i) % 10
    ensures -10 < CRemainder(i, 10) < 10
  {
  }

  /** Any signed or unsigned value of up to 64 bits is appended as its decimal numeral, unless fewer
      than 48 bytes are free; the local buffer never overflows. */
  method FormatInteger(buf: FixedBuffer, value: int)
    requires buf.Valid() && -0x8000_0000_0000_0000 <= value < 0x1_0000_0000_0000_0000
    modifies buf, buf.data
    ensures buf.Valid()
    ensures buf.Contents() == old(buf.Contents()) + if old(buf.Avail()) < MAX_NUMERIC_SIZE then "" else Decimal(value)
  {
    if buf.Avail() < MAX_NUMERIC_SIZE {
      return;
    }
    var ibuf := new char[MAX_NUMERIC_SIZE];
    var tmp := PrintBackwards(ibuf, value);
    ReverseFirst(ibuf, tmp);
    assert Reversed(Reversed(Decimal(value))) == Decimal(value);
    buf.Append(ibuf[..tmp]);
  }

  /** The digits printed so far are the end of the numeral, backwards. */
  ghost predicate Printing(all: string, i: int, more: bool, printed: string) {
    all == (if more then Numeral(Magnitude(i)) else "") + Reversed(printed)
  }

  lemma PrintDigit(all: string, i: int, printed: string)
    requires Printing(all, i, true, printed)
    ensures var q := Quotient(i, 10);
            && |printed| < |all| && Magnitude(q) <= Magnitude(i) && (q != 0 ==> Magnitude(q) < Magnitude(i))
            && Printing(all, q, q != 0, printed + [Digit(Magnitude(CRemainder(i, 10)))])
  {
    NextDigit(i);
    var d := Digit(Magnitude(CRemainder(i, 10)));
    assert Reversed(printed + [d]) == [d] + Reversed(printed);
    assert Numeral(Magnitude(i) / 10) + ([d] + Reversed(printed)) == (Numeral(Magnitude(i) / 10) + [d]) + Reversed(printed);
  }

  method PrintBackwards(ibuf: array<char>, value: int) returns (tmp: nat)
    requires ibuf.Length == MAX_NUMERIC_SIZE && -0x8000_0000_0000_0000 <= value < 0x1_0000_0000_0000_0000
    modifies ibuf
    ensures tmp < ibuf.Length && ibuf[..tmp] == Reversed(Decimal(value))
  {
    PowTwenty();
    NumeralLength(Magnitude(value), 20);
    ghost var all := Numeral(Magnitude(value));
    tmp := 0;
    var i, more := value, true;
    while more
      invariant tmp <= |all| <= 20 && Printing(all, i, more, ibuf[..tmp])
      decreases Magnitude(i), more
    {
      PrintDigit(all, i, ibuf[..tmp]);
      var lsd := CRemainder(i, 10);
      MirroredTable(lsd);
      ghost var printed := ibuf[..tmp];
      ibuf[tmp] := DIGITS[ZERO_AT + lsd];
      tmp := tmp + 1;
      assert ibuf[..tmp] == printed + [ibuf[tmp - 1]];
      i := Quotient(i, 10);
      more := i != 0;
    }
    ghost var printed := ibuf[..tmp];
    assert all == Reversed(printed);
    if value < 0 {
      ibuf[tmp] := '-';
      tmp := tmp + 1;
    }
    ibuf[tmp] := '\0';
    assert ibuf[..|printed|] == printed;
  }
}
