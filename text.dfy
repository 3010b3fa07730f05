/** The string handling the password-hash codec relies on: decimal printing (`%d` in fmt.Sprintf),
    the `%d` verb of fmt.Sscanf, and strings.Split / a matching join on a one-character separator. */
module Text {
  import opened Common

  predicate IsDigit(c: char) { '0' <= c <= '9' }

  function DigitChar(d: int): (c: char)
    requires 0 <= d < 10
    ensures IsDigit(c) && c as int - '0' as int == d
  {
    ('0' as int + d) as char
  }

  /** `%d` of a non-negative integer: its decimal digits, most significant first, no leading zeros. */
  function Decimal(n: nat): (s: string)
    ensures |s| >= 1 && forall i :: 0 <= i < |s| ==> IsDigit(s[i])
    ensures |s| > 1 ==> s[0] != '0'
  {
    if n < 10 then [DigitChar(n)] else Decimal(n / 10) + [DigitChar(n % 10)]
  }

  /** The value of a run of decimal digits, as strconv.ParseUint computes it before its range check. */
  function DigitsValue(s: string): nat
    requires forall i :: 0 <= i < |s| ==> IsDigit(s[i])
  {
    if s == [] then 0
    else
      assert IsDigit(s[|s| - 1]);
      DigitsValue(s[..|s| - 1]) * 10 + (s[|s| - 1] as int - '0' as int)
  }

  lemma {:induction false} DecimalValue(n: nat)
    ensures DigitsValue(Decimal(n)) == n
  {
    if n >= 10 {
      var s := Decimal(n);
      assert s[..|s| - 1] == Decimal(n / 10);
      DecimalValue(n / 10);
    }
  }

  /** The length of the longest prefix of `s` made of decimal digits. */
  function DigitRun(s: string): (k: nat)
    ensures k <= |s| && (forall i :: 0 <= i < k ==> IsDigit(s[i])) && (k < |s| ==> !IsDigit(s[k]))
  {
    if s == [] || !IsDigit(s[0]) then 0 else 1 + DigitRun(s[1..])
  }

  lemma {:induction false} DigitRunOfDecimal(n: nat, rest: string)
    requires rest == [] || !IsDigit(rest[0])
    ensures DigitRun(Decimal(n) + rest) == |Decimal(n)|
  {
    DigitRunPrefix(Decimal(n), rest);
  }

  lemma {:induction false} DigitRunPrefix(d: string, rest: string)
    requires forall i :: 0 <= i < |d| ==> IsDigit(d[i])
    requires rest == [] || !IsDigit(rest[0])
    ensures DigitRun(d + rest) == |d|
  {
    if d == [] {
      assert d + rest == rest;
    } else {
      assert (d + rest)[1..] == d[1..] + rest;
      DigitRunPrefix(d[1..], rest);
    }
  }

  /** The characters fmt's scanner treats as space (its `isSpace` table) other than newline. */
  predicate IsScanSpace(c: char)
  {
    var n := c as int;
    n == 0x09 || n == 0x0B || n == 0x0C || n == 0x0D || n == 0x20 || n == 0x85 || n == 0xA0 || n == 0x1680
    || (0x2000 <= n <= 0x200A) || n == 0x2028 || n == 0x2029 || n == 0x202F || n == 0x205F || n == 0x3000
  }

  /** `SkipSpace` as Sscanf runs it: spaces are dropped; a newline is an error ("unexpected newline"). */
  function SkipSpace(s: string): (r: Option<string>)
    ensures r.Some? ==> |r.value| <= |s| && r.value == s[|s| - |r.value|..]
    ensures r.Some? ==> r.value == [] || (!IsScanSpace(r.value[0]) && r.value[0] != '\n')
  {
    if s == [] then Some(s)
    else if s[0] == '\n' then None
    else if IsScanSpace(s[0]) then SkipSpace(s[1..])
    else Some(s)
  }

  /** What one `%d` verb consumed: the value and the input left after it. */
  datatype Scanned = Scanned(value: int, rest: string)

  /** Literal characters of a format must match the input exactly. */
  function ScanLiteral(lit: string, s: string): (r: Option<string>)
    ensures r.Some? <==> |lit| <= |s| && s[..|lit|] == lit
    ensures r.Some? ==> r.value == s[|lit|..]
  {
    if |lit| <= |s| && s[..|lit|] == lit then Some(s[|lit|..]) else None
  }

  /** The `%d` verb into an integer operand of `bits` bits: leading spaces skipped, a sign accepted only
      for a signed operand, then one or more decimal digits, which must fit the operand's range.
      Whatever follows the digits is left for the rest of the format. */
  function ScanInt(s: string, signed: bool, bits: nat): (r: Option<Scanned>)
    requires 1 <= bits
    ensures r.Some? ==> InRange(r.value.value, signed, bits)
  {
    match SkipSpace(s)
    case None => None
    case Some(t) =>
      var sign := if signed && t != [] && (t[0] == '-' || t[0] == '+') then 1 else 0;
      match ScanDigits(t[sign..])
      case None => None
      case Some(d) =>
        var v := if sign == 1 && t[0] == '-' then -d.value else d.value;
        if InRange(v, signed, bits) then Some(Scanned(v, d.rest)) else None
  }

  /** The range of a Go integer type of `bits` bits, signed or not. */
  predicate InRange(v: int, signed: bool, bits: nat)
    requires 1 <= bits
  {
    if signed then -(Pow2(bits - 1) as int) <= v < Pow2(bits - 1) else 0 <= v < Pow2(bits)
  }

  /** One or more decimal digits and their value; the input after them is left over. */
  function ScanDigits(u: string): (r: Option<Scanned>)
    ensures r.Some? ==> r.value.value >= 0
  {
    var k := DigitRun(u);
    if k == 0 then None else Some(Scanned(DigitsValue(u[..k]), u[k..]))
  }

  function Pow2(n: nat): (p: nat)
    ensures p >= 1
  {
    if n == 0 then 1 else 2 * Pow2(n - 1)
  }

  lemma {:induction false} Pow2Monotone(a: nat, b: nat)
    requires a <= b
    ensures Pow2(a) <= Pow2(b)
    decreases b - a
  {
    if a < b {
      Pow2Monotone(a, b - 1);
    }
  }

  lemma Pow2Of8()
    ensures Pow2(8) == 256
  {
    assert Pow2(4) == 16;
  }

  lemma Pow2Of17()
    ensures Pow2(17) == 131072
  {
    assert Pow2(4) == 16;
    assert Pow2(8) == 256;
    assert Pow2(12) == 4096;
    assert Pow2(16) == 65536;
  }

  /** A value below 2^k fits every operand with at least k value bits. */
  lemma InRangeBelow(v: int, k: nat, signed: bool, bits: nat)
    requires 0 <= v < Pow2(k)
    requires 1 <= bits && (if signed then k <= bits - 1 else k <= bits)
    ensures InRange(v, signed, bits)
  {
    if signed {
      Pow2Monotone(k, bits - 1);
    } else {
      Pow2Monotone(k, bits);
    }
  }

  lemma ScanDigitsOfDecimal(n: nat, rest: string)
    requires rest == [] || !IsDigit(rest[0])
    ensures ScanDigits(Decimal(n) + rest) == Some(Scanned(n, rest))
  {
    var d := Decimal(n);
    var s := d + rest;
    DigitRunOfDecimal(n, rest);
    assert s[..|d|] == d;
    DecimalValue(n);
    assert s[|d|..] == rest;
  }

  /** At a digit, the %d verb skips no space and reads no sign. */
  lemma ScanAtDigit(s: string, signed: bool, bits: nat)
    requires 1 <= bits
    requires s != [] && IsDigit(s[0])
    ensures ScanInt(s, signed, bits)
         == match ScanDigits(s)
            case None => None
            case Some(d) => if InRange(d.value, signed, bits) then Some(d) else None
  {
    assert SkipSpace(s) == Some(s);
    assert s[0..] == s;
  }

  /** A %d verb reads back exactly what Decimal printed, when the next character is not a digit. */
  lemma ScanDecimal(n: nat, rest: string, signed: bool, bits: nat)
    requires 1 <= bits
    requires InRange(n, signed, bits)
    requires rest == [] || !IsDigit(rest[0])
    ensures ScanInt(Decimal(n) + rest, signed, bits) == Some(Scanned(n, rest))
  {
    var d := Decimal(n);
    assert (d + rest)[0] == d[0];
    ScanAtDigit(d + rest, signed, bits);
    ScanDigitsOfDecimal(n, rest);
  }

  /** The index of the first `sep` in `s`, or |s| when there is none. */
  function IndexOf(s: string, sep: char): (k: nat)
    ensures k <= |s| && (k < |s| ==> s[k] == sep) && forall i :: 0 <= i < k ==> s[i] != sep
  {
    if s == [] then 0 else if s[0] == sep then 0 else 1 + IndexOf(s[1..], sep)
  }

  /** `strings.Split(s, sep)` for a one-character separator: the pieces between separators, so a string
      with n separators has n + 1 pieces and the empty string has one, empty, piece. */
  function Split(s: string, sep: char): (r: seq<string>)
    ensures |r| >= 1
    decreases |s|
  {
    var k := IndexOf(s, sep);
    if k == |s| then [s] else [s[..k]] + Split(s[k + 1..], sep)
  }

  /** `strings.Join(fields, sep)` for a one-character separator. */
  function Join(fields: seq<string>, sep: char): string
    requires |fields| >= 1
  {
    if |fields| == 1 then fields[0] else fields[0] + [sep] + Join(fields[1..], sep)
  }

  /** Splitting a join gives the fields back when no field contains the separator. */
  lemma {:induction false} SplitJoin(fields: seq<string>, sep: char)
    requires |fields| >= 1
    requires forall i :: 0 <= i < |fields| ==> sep !in fields[i]
    ensures Split(Join(fields, sep), sep) == fields
  {
    var f := fields[0];
    NoSepIndex(f, sep);
    if |fields| == 1 {
      assert IndexOf(f, sep) == |f|;
    } else {
      var rest := Join(fields[1..], sep);
      var s := f + [sep] + rest;
      IndexAfter(f, sep, rest);
      assert s[..|f|] == f && s[|f| + 1..] == rest;
      SplitJoin(fields[1..], sep);
      assert [f] + fields[1..] == fields;
    }
  }

  lemma {:induction false} NoSepIndex(f: string, sep: char)
    requires sep !in f
    ensures IndexOf(f, sep) == |f|
  {
    if f != [] {
      assert sep !in f[1..] by { assert forall c :: c in f[1..] ==> c in f; }
      NoSepIndex(f[1..], sep);
    }
  }

  lemma {:induction false} IndexAfter(f: string, sep: char, rest: string)
    requires sep !in f
    ensures IndexOf(f + [sep] + rest, sep) == |f|
  {
    if f == [] {
      assert (f + [sep] + rest)[0] == sep;
    } else {
      assert (f + [sep] + rest)[1..] == f[1..] + [sep] + rest;
      assert sep !in f[1..] by { assert forall c :: c in f[1..] ==> c in f; }
      IndexAfter(f[1..], sep, rest);
    }
  }

  /** Split yields one more piece than there are separators in the string. */
  lemma {:induction false} SplitCount(s: string, sep: char)
    ensures |Split(s, sep)| == multiset(s)[sep] + 1
    decreases |s|
  {
    var k := IndexOf(s, sep);
    if k == |s| {
      assert sep !in s;
    } else {
      assert s == s[..k] + [sep] + s[k + 1..];
      assert sep !in s[..k];
      assert multiset(s) == multiset(s[..k]) + multiset{sep} + multiset(s[k + 1..]);
      SplitCount(s[k + 1..], sep);
    }
  }

  /** No piece of a split contains the separator. */
  lemma {:induction false} SplitPieces(s: string, sep: char)
    ensures forall i :: 0 <= i < |Split(s, sep)| ==> sep !in Split(s, sep)[i]
    decreases |s|
  {
    var k := IndexOf(s, sep);
    if k < |s| {
      SplitPieces(s[k + 1..], sep);
    }
  }
}
