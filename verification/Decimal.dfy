/** Decimal numbers in texts, as they are printed and scanned. */
module Decimal {
  import opened Occurrences

  predicate IsDigit(c: char) {
    '0' <= c <= '9'
  }

  predicate IsBlank(c: char) {
    c == ' ' || '\t' <= c <= '\r'
  }

  function Digit(d: nat): char
    requires d < 10
  {
    '0' + d as char
  }

  function FormatNat(n: nat): (r: string)
    ensures r != "" && forall k :: 0 <= k < |r| ==> IsDigit(r[k])
  {
    if n < 10 then [Digit(n)] else FormatNat(n / 10) + [Digit(n % 10)]
  }

  /** The number as "%d" prints it. */
  function Format(n: int): string {
    if n < 0 then "-" + FormatNat(-n) else FormatNat(n)
  }

  datatype Scanned = NoNumber | Number(value: int, next: nat)

  function ScanDigits(s: string, i: nat, acc: nat): (r: (nat, nat))
    requires i <= |s|
    ensures i <= r.1 <= |s|
    decreases |s| - i
  {
    if i < |s| && IsDigit(s[i]) then ScanDigits(s, i + 1, acc * 10 + (s[i] as int - '0' as int)) else (acc, i)
  }

  function SkipBlanks(s: string, i: nat): (j: nat)
    requires i <= |s|
    ensures i <= j <= |s|
    decreases |s| - i
  {
    if i < |s| && IsBlank(s[i]) then SkipBlanks(s, i + 1) else i
  }

  /** The number that "%d" scans at a position: blanks, a sign, digits. */
  function ScanInt(s: string, pos: nat): (r: Scanned)
    requires pos <= |s|
    ensures r.Number? ==> pos < r.next <= |s|
  {
    var i := SkipBlanks(s, pos);
    var signed := i < |s| && (s[i] == '-' || s[i] == '+');
    var j := if signed then i + 1 else i;
    var (value: int, next) := ScanDigits(s, j, 0);
    if next == j then NoNumber
    else Number(if signed && s[i] == '-' then -(value as int) else value, next)
  }

  /** The number at a position, 0 when there is none. */
  function Atoi(s: string, pos: nat): int
    requires pos <= |s|
  {
    match ScanInt(s, pos)
    case NoNumber => 0
    case Number(value, _) => value
  }

  // ------------------------------------------------------------------- round trip

  /** The number whose digits are those of `acc`, followed by `k` zeros. */
  function Zeros(acc: nat, k: nat): nat {
    if k == 0 then acc else 10 * Zeros(acc, k - 1)
  }

  lemma ScanOne(s: string, i: nat, acc: nat, d: nat)
    requires i < |s| && d < 10 && s[i] == Digit(d)
    ensures ScanDigits(s, i, acc) == ScanDigits(s, i + 1, acc * 10 + d)
  {
  }

  lemma {:induction false} ScanFormatNat(s: string, i: nat, n: nat, acc: nat)
    requires At(s, i, FormatNat(n))
    ensures ScanDigits(s, i, acc) == ScanDigits(s, i + |FormatNat(n)|, Zeros(acc, |FormatNat(n)|) + n)
    decreases n
  {
    hide ScanDigits, At;
    if n < 10 {
      AtIndex(s, i, [Digit(n)]);
      ScanOne(s, i, acc, n);
      assert Zeros(acc, 1) == 10 * Zeros(acc, 0);
    } else {
      var x, d := FormatNat(n / 10), Digit(n % 10);
      AtConcat(s, i, x, [d]);
      AtIndex(s, i + |x|, [d]);
      ScanFormatNat(s, i, n / 10, acc);
      ScanOne(s, i + |x|, Zeros(acc, |x|) + n / 10, n % 10);
      assert FormatNat(n) == x + [d];
      assert Zeros(acc, |x| + 1) == 10 * Zeros(acc, |x|);
    }
  }

  lemma {:induction false} ZerosOfNothing(k: nat)
    ensures Zeros(0, k) == 0
    decreases k
  {
    if k > 0 {
      ZerosOfNothing(k - 1);
    }
  }

  lemma ScanDigitsEnd(s: string, i: nat, acc: nat)
    requires i <= |s| && (i < |s| ==> !IsDigit(s[i]))
    ensures ScanDigits(s, i, acc) == (acc, i)
  {
  }

  /** Scanning a printed number gives the number and stops behind it. */
  lemma ScanFormat(s: string, pos: nat, n: int)
    requires At(s, pos, Format(n))
    requires pos + |Format(n)| < |s| ==> !IsDigit(s[pos + |Format(n)|])
    ensures ScanInt(s, pos) == Number(n, pos + |Format(n)|) && Atoi(s, pos) == n
  {
    hide FormatNat, ScanDigits;
    var end := pos + |Format(n)|;
    AtIndex(s, pos, Format(n));
    if n < 0 {
      assert Format(n)[0] == '-';
      AtConcat(s, pos, "-", FormatNat(-n));
      ScanFormatNat(s, pos + 1, -n, 0);
      ZerosOfNothing(|FormatNat(-n)|);
      ScanDigitsEnd(s, end, -n);
    } else {
      assert IsDigit(Format(n)[0]);
      ScanFormatNat(s, pos, n, 0);
      ZerosOfNothing(|FormatNat(n)|);
      ScanDigitsEnd(s, end, n);
    }
  }

  // ---------------------------------------------------------------- digits, written out

  /** The number that a text of digits stands for. */
  function DigitsValue(ds: string): int {
    if ds == "" then 0 else 10 * DigitsValue(ds[..|ds| - 1]) + (ds[|ds| - 1] as int - 48)
  }

  ghost predicate AllDigits(ds: string) {
    forall k :: 0 <= k < |ds| ==> 48 <= ds[k] as int <= 57
  }

  lemma {:induction false} FormatNatIs(n: nat)
    ensures var ds := FormatNat(n);
      AllDigits(ds) && ds != "" && DigitsValue(ds) == n && (n > 0 ==> ds[0] as int != 48) && (n == 0 ==> ds == "0")
    decreases n
  {
    if n >= 10 {
      FormatNatIs(n / 10);
      var ds := FormatNat(n);
      assert ds[..|ds| - 1] == FormatNat(n / 10);
    } else {
      assert [Digit(n)][..0] == "";
    }
  }

  /** A number is printed with a minus sign if it is negative, and with its digits, the first
      of which is 0 for 0 only. */
  lemma FormatIs(n: int)
    ensures var s := Format(n); var ds := if n < 0 then s[1..] else s;
      && (n < 0 ==> s[0] == '-')
      && ds != "" && AllDigits(ds) && DigitsValue(ds) == (if n < 0 then -n else n) && (n != 0 ==> ds[0] as int != 48)
      && (n == 0 ==> s == "0")
  {
    hide FormatNat;
    FormatNatIs(if n < 0 then -n else n);
  }

  lemma {:induction false} ScanDigitsFrom(s: string, i: nat, j: nat, e: nat)
    requires i <= j <= e <= |s| && AllDigits(s[i..e]) && (e < |s| ==> !(48 <= s[e] as int <= 57))
    ensures DigitsValue(s[i..j]) >= 0
    ensures ScanDigits(s, j, DigitsValue(s[i..j])) == (DigitsValue(s[i..e]), e)
    decreases e - j
  {
    DigitsNatural(s[i..j], s[i..e]);
    if j < e {
      assert s[i..e][j - i] == s[j];
      assert s[i..j + 1][..j - i] == s[i..j];
      ScanDigitsFrom(s, i, j + 1, e);
    }
  }

  lemma {:induction false} DigitsNatural(ds: string, all: string)
    requires AllDigits(all) && ds <= all
    ensures DigitsValue(ds) >= 0
    decreases |ds|
  {
    if ds != "" {
      assert ds[|ds| - 1] == all[|ds| - 1];
      DigitsNatural(ds[..|ds| - 1], all);
    }
  }

  lemma {:induction false} SkipBlanksTo(s: string, pos: nat, i: nat)
    requires pos <= i <= |s| && forall k :: pos <= k < i ==> s[k] as int == 32 || 9 <= s[k] as int <= 13
    requires i < |s| ==> s[i] as int != 32 && !(9 <= s[i] as int <= 13)
    ensures SkipBlanks(s, pos) == i
    decreases i - pos
  {
    if pos < i {
      SkipBlanksTo(s, pos + 1, i);
    }
  }

  /** A number is scanned from its blanks up to `i`, a sign if there is one, and its digits
      from `j` to `e`; without digits there is none. */
  lemma ScanIs(s: string, pos: nat, i: nat, j: nat, e: nat)
    requires pos <= i <= j <= e <= |s|
    requires forall k :: pos <= k < i ==> s[k] as int == 32 || 9 <= s[k] as int <= 13
    requires i < |s| ==> s[i] as int != 32 && !(9 <= s[i] as int <= 13)
    requires j == if i < |s| && (s[i] == '-' || s[i] == '+') then i + 1 else i
    requires AllDigits(s[j..e]) && (e < |s| ==> !(48 <= s[e] as int <= 57))
    ensures ScanInt(s, pos) == if j == e then NoNumber
      else Number(if s[i] == '-' then -DigitsValue(s[j..e]) else DigitsValue(s[j..e]), e)
  {
    hide ScanDigits, SkipBlanks, DigitsValue;
    SkipBlanksTo(s, pos, i);
    assert s[j..j] == "";
    EmptyValue();
    ScanDigitsFrom(s, j, j, e);
  }

  lemma EmptyValue()
    ensures DigitsValue("") == 0
  {
  }

  // ---------------------------------------------------------------- 32-bit numbers

  const WORD: int := 0x1_0000_0000

  type Dword = c: int | 0 <= c < 0x1_0000_0000

  /** The bits of an unsigned number, read as a signed one. */
  function Signed(c: Dword): int {
    if c >= 0x8000_0000 then c - WORD else c
  }

  function ToDword(n: int): Dword {
    n % WORD
  }

  lemma SignedRoundTrip(c: Dword)
    ensures ToDword(Signed(c)) == c
  {
  }
}
