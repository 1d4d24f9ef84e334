/**
 * Int32.TryParse(string, out int) with NumberStyles.Integer and the
 * invariant culture's signs: optional leading and trailing white space,
 * an optional leading '+' or '-', then one or more decimal digits whose
 * value must fit in 32 bits. On failure the out value is 0.
 */
module Int32Parsing {
  import opened Wrappers

  const Int32Min: int := -0x8000_0000
  const Int32Max: int := 0x7FFF_FFFF

  /** A C# `int`. */
  type Int32 = x: int | -0x8000_0000 <= x <= 0x7FFF_FFFF

  /** The white space NumberStyles.AllowLeadingWhite and AllowTrailingWhite skip. */
  predicate IsNumberWhite(c: char) {
    c == ' ' || '\t' <= c <= '\r'
  }

  predicate IsDigit(c: char) {
    '0' <= c <= '9'
  }

  predicate AllDigits(s: string) {
    forall i :: 0 <= i < |s| ==> IsDigit(s[i])
  }

  function TrimStart(s: string): (t: string)
    ensures |t| <= |s|
    ensures t == s[|s| - |t|..]
    ensures t != [] ==> !IsNumberWhite(t[0])
  {
    if s != [] && IsNumberWhite(s[0]) then TrimStart(s[1..]) else s
  }

  function TrimEnd(s: string): (t: string)
    ensures |t| <= |s|
    ensures t == s[..|t|]
    ensures t != [] ==> !IsNumberWhite(t[|t| - 1])
  {
    if s != [] && IsNumberWhite(s[|s| - 1]) then TrimEnd(s[..|s| - 1]) else s
  }

  /** The value of a string of decimal digits, most significant first. */
  function DigitsValue(ds: string): nat
    requires AllDigits(ds)
    decreases |ds|
  {
    if ds == [] then 0
    else DigitsValue(ds[..|ds| - 1]) * 10 + (ds[|ds| - 1] as int - '0' as int)
  }

  /** A sign-and-digits text without surrounding white space, as a 32-bit int. */
  function ParseSignedDigits(t: string): (r: Option<Int32>)
  {
    var signed := |t| > 0 && (t[0] == '-' || t[0] == '+');
    var digits := if signed then t[1..] else t;
    if digits == [] || !AllDigits(digits) then None
    else
      var magnitude := DigitsValue(digits);
      var v: int := if signed && t[0] == '-' then -(magnitude as int) else magnitude;
      if Int32Min <= v <= Int32Max then Some(v) else None
  }

  /** Int32.Parse as an Option: None where Int32.TryParse returns false. */
  function ParseInt32(s: string): Option<Int32> {
    ParseSignedDigits(TrimEnd(TrimStart(s)))
  }

  /** Only a text containing a decimal digit parses. */
  lemma ParsedTextHasDigit(s: string)
    requires ParseInt32(s).Some?
    ensures exists i :: 0 <= i < |s| && IsDigit(s[i])
  {
    var t := TrimEnd(TrimStart(s));
    var signed := |t| > 0 && (t[0] == '-' || t[0] == '+');
    var digits := if signed then t[1..] else t;
    assert IsDigit(digits[0]);
    assert t == TrimStart(s)[..|t|];
    var k := |s| - |TrimStart(s)| + (if signed then 1 else 0);
    assert s[k] == digits[0];
  }

  /** Int32.TryParse: the success flag and the out value, 0 on failure. */
  function Int32TryParse(s: string): (result: (bool, Int32))
    ensures result.0 <==> ParseInt32(s).Some?
    ensures result.0 ==> ParseInt32(s) == Some(result.1)
    ensures !result.0 ==> result.1 == 0
  {
    match ParseInt32(s)
    case Some(n) => (true, n)
    case None => (false, 0)
  }

  function DigitChar(d: nat): (c: char)
    requires d < 10
    ensures IsDigit(c) && c as int - '0' as int == d
  {
    ('0' as int + d) as char
  }

  /** The decimal digits of a natural number, without leading zeros. */
  function NatDigits(n: nat): (ds: string)
    ensures ds != [] && AllDigits(ds)
    ensures DigitsValue(ds) == n
    decreases n
  {
    if n < 10 then [DigitChar(n)]
    else
      var ds := NatDigits(n / 10) + [DigitChar(n % 10)];
      assert ds[..|ds| - 1] == NatDigits(n / 10);
      ds
  }

  /** Int32.ToString(): the decimal text of an int, '-' first when negative. */
  function FormatInt32(n: Int32): (s: string)
    ensures s != []
  {
    if n < 0 then "-" + NatDigits(-(n as int)) else NatDigits(n)
  }

  /** The decimal text of an int, parsed without its white-space trimming. */
  lemma ParseSignedDigitsFormatted(n: Int32)
    ensures ParseSignedDigits(FormatInt32(n)) == Some(n)
  {
    var s := FormatInt32(n);
    var magnitude: nat := if n < 0 then -(n as int) else n;
    var ds := NatDigits(magnitude);
    if n < 0 {
      assert s[1..] == ds;
    } else {
      assert IsDigit(ds[0]);
    }
  }

  /** A text that neither starts nor ends with white space is its own trimming. */
  lemma TrimmedAlready(s: string)
    requires s != [] && !IsNumberWhite(s[0]) && !IsNumberWhite(s[|s| - 1])
    ensures TrimEnd(TrimStart(s)) == s
  {
  }

  /** Every int's decimal text parses back to that int. */
  lemma ParseFormatted(n: Int32)
    ensures ParseInt32(FormatInt32(n)) == Some(n)
  {
    var s := FormatInt32(n);
    var ds := NatDigits(if n < 0 then -(n as int) else n);
    assert IsDigit(ds[0]) && IsDigit(ds[|ds| - 1]);
    assert s[|s| - 1] == ds[|ds| - 1];
    TrimmedAlready(s);
    ParseSignedDigitsFormatted(n);
  }
}
