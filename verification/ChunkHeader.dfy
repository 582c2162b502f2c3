/** The numbers in a chunk header, written in decimal and read back. */
module ChunkHeader {
  import opened Collections

  predicate IsDigit(c: char) {
    '0' <= c <= '9'
  }

  function Digit(d: nat): char
    requires d < 10
  {
    "0123456789"[d]
  }

  function DigitValue(c: char): nat
    requires IsDigit(c)
  {
    c as int - '0' as int
  }

  function Decimal(n: nat): string {
    if n < 10 then [Digit(n)] else Decimal(n / 10) + [Digit(n % 10)]
  }

  predicate AllDigits(s: string) {
    forall i :: 0 <= i < |s| ==> IsDigit(s[i])
  }

  function DigitsValue(s: string): nat
    requires AllDigits(s)
  {
    if s == "" then 0 else DigitsValue(s[..|s| - 1]) * 10 + DigitValue(s[|s| - 1])
  }

  lemma {:induction false} DecimalValue(n: nat)
    ensures Decimal(n) != "" && AllDigits(Decimal(n)) && DigitsValue(Decimal(n)) == n
  {
    hide Digit, AllDigits, DigitsValue;
    if 10 <= n {
      DecimalValue(n / 10);
      OneMoreDigit(Decimal(n / 10), n % 10);
    } else {
      NonDigits();
      OneMoreDigit("", n);
      assert "" + [Digit(n)] == [Digit(n)];
    }
  }

  lemma OneMoreDigit(s: string, d: nat)
    requires AllDigits(s) && d < 10
    ensures AllDigits(s + [Digit(d)]) && DigitsValue(s + [Digit(d)]) == DigitsValue(s) * 10 + d
  {
    assert (s + [Digit(d)])[..|s|] == s;
  }

  function LeadingDigits(s: string): (k: nat)
    ensures k <= |s| && (forall i :: 0 <= i < k ==> IsDigit(s[i])) && (k < |s| ==> !IsDigit(s[k]))
  {
    if s == "" || !IsDigit(s[0]) then 0 else 1 + LeadingDigits(s[1..])
  }

  /** A number at the front of s, and what follows it. */
  function Number(s: string): Option<(nat, string)> {
    var k := LeadingDigits(s);
    if k == 0 then None else Some((DigitsValue(s[..k]), s[k..]))
  }

  function Expect(prefix: string, s: string): Option<string> {
    if prefix <= s then Some(s[|prefix|..]) else None
  }

  /** A number after a fixed prefix. */
  function Field(prefix: string, s: string): Option<(nat, string)> {
    match Expect(prefix, s)
    case None => None
    case Some(t) => Number(t)
  }

  datatype Numbers = Numbers(srcPos: nat, srcLen: nat, dstPos: nat, dstLen: nat)

  /** The four numbers of a chunk header; whatever comes after the second pair of signs is ignored. */
  function ReadHeader(line: string): Option<Numbers> {
    match Field("@@ -", line)
    case None => None
    case Some((srcPos, a)) =>
      match Field(",", a)
      case None => None
      case Some((srcLen, b)) =>
        match Field(" +", b)
        case None => None
        case Some((dstPos, c)) =>
          match Field(",", c)
          case None => None
          case Some((dstLen, d)) =>
            if Expect(" @@", d).Some? then Some(Numbers(srcPos, srcLen, dstPos, dstLen)) else None
  }

  function WriteHeader(h: Numbers): string {
    "@@ -" + Decimal(h.srcPos) + "," + Decimal(h.srcLen) + " +" + Decimal(h.dstPos) + "," + Decimal(h.dstLen) + " @@"
  }

  /** A way to write n in decimal, leading zeros allowed. */
  predicate IsNumeral(s: string, n: nat) {
    s != "" && AllDigits(s) && DigitsValue(s) == n
  }

  predicate StartsPlain(s: string) {
    s != "" && !IsDigit(s[0])
  }

  lemma {:induction false} LeadingDigitsOf(digits: string, rest: string)
    requires AllDigits(digits) && StartsPlain(rest)
    ensures LeadingDigits(digits + rest) == |digits|
  {
    if digits == "" {
      assert digits + rest == rest;
    } else {
      assert (digits + rest)[1..] == digits[1..] + rest;
      LeadingDigitsOf(digits[1..], rest);
    }
  }

  lemma FieldOf(prefix: string, digits: string, n: nat, rest: string)
    requires IsNumeral(digits, n) && StartsPlain(rest)
    ensures Field(prefix, prefix + digits + rest) == Some((n, rest))
  {
    hide DigitsValue, LeadingDigits;
    var t := digits + rest;
    assert prefix + digits + rest == prefix + t && (prefix + t)[|prefix|..] == t;
    LeadingDigitsOf(digits, rest);
    assert t[..|digits|] == digits && t[|digits|..] == rest;
  }

  /** A field that is read is the prefix, a numeral, and what is left. */
  lemma FieldIs(prefix: string, s: string) returns (digits: string)
    requires Field(prefix, s).Some?
    ensures var (n, rest) := Field(prefix, s).value;
            IsNumeral(digits, n) && s == prefix + digits + rest
  {
    hide DigitsValue, LeadingDigits;
    var t := s[|prefix|..];
    digits := t[..LeadingDigits(t)];
    assert s == prefix + t && t == digits + t[|digits|..];
  }

  /** The form of a chunk header: the numbers written as a, b, c and d, and anything behind. */
  predicate HasForm(line: string, h: Numbers, a: string, b: string, c: string, d: string, tail: string) {
    && IsNumeral(a, h.srcPos) && IsNumeral(b, h.srcLen) && IsNumeral(c, h.dstPos) && IsNumeral(d, h.dstLen)
    && line == "@@ -" + a + ("," + b + (" +" + c + ("," + d + (" @@" + tail))))
  }

  /** Exactly the lines of that form are headers, whatever stands behind the second pair of signs. */
  lemma ReadsForm(line: string, h: Numbers)
    ensures ReadHeader(line) == Some(h) <==> exists a, b, c, d, tail :: HasForm(line, h, a, b, c, d, tail)
  {
    hide Field, IsNumeral, IsDigit;
    if ReadHeader(line) == Some(h) {
      var a := FieldIs("@@ -", line);
      var afterA := Field("@@ -", line).value.1;
      var b := FieldIs(",", afterA);
      var afterB := Field(",", afterA).value.1;
      var c := FieldIs(" +", afterB);
      var afterC := Field(" +", afterB).value.1;
      var d := FieldIs(",", afterC);
      var afterD := Field(",", afterC).value.1;
      assert afterD == " @@" + afterD[3..];
      assert HasForm(line, h, a, b, c, d, afterD[3..]);
    }
    if a, b, c, d, tail :| HasForm(line, h, a, b, c, d, tail) {
      FormRead(line, h, a, b, c, d, tail);
    }
  }

  lemma FormRead(line: string, h: Numbers, a: string, b: string, c: string, d: string, tail: string)
    requires HasForm(line, h, a, b, c, d, tail)
    ensures ReadHeader(line) == Some(h)
  {
    hide Field, IsNumeral, IsDigit;
    NonDigits();
    var afterD := " @@" + tail;
    var afterC := "," + d + afterD;
    var afterB := " +" + c + afterC;
    var afterA := "," + b + afterB;
    FieldOf("@@ -", a, h.srcPos, afterA);
    FieldOf(",", b, h.srcLen, afterB);
    FieldOf(" +", c, h.dstPos, afterC);
    FieldOf(",", d, h.dstLen, afterD);
  }

  /** Reading undoes writing, whatever follows. */
  lemma HeaderRoundTrip(h: Numbers, tail: string)
    ensures ReadHeader(WriteHeader(h) + tail) == Some(h)
  {
    hide ReadHeader, Decimal, AllDigits, DigitsValue;
    DecimalValue(h.srcPos);
    DecimalValue(h.srcLen);
    DecimalValue(h.dstPos);
    DecimalValue(h.dstLen);
    FormRead(WriteHeader(h) + tail, h,
             Decimal(h.srcPos), Decimal(h.srcLen), Decimal(h.dstPos), Decimal(h.dstLen), tail);
  }

  lemma NonDigits()
    ensures !IsDigit(',') && !IsDigit(' ')
    ensures AllDigits("") && DigitsValue("") == 0
  {
  }
}
