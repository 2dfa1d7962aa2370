/** A student record and its display form. */
module Students {

  /** One record of the store: the id the store assigned, a free-form name and an age. */
  datatype Student = Student(id: int, name: string, age: int)

  predicate IsDigit(c: char) { '0' <= c <= '9' }

  predicate AllDigits(s: string) { forall k :: 0 <= k < |s| ==> IsDigit(s[k]) }

  function DigitChar(d: nat): (c: char)
    requires d < 10
    ensures IsDigit(c) && c as int - '0' as int == d
  {
    (d + '0' as int) as char
  }

  /** The decimal digits of a natural number, most significant first, without leading zeros. */
  function NatToString(n: nat): (r: string)
    ensures |r| >= 1 && AllDigits(r)
    ensures r[0] == '0' <==> n == 0
    ensures r[0] == '0' ==> |r| == 1
  {
    if n < 10 then [DigitChar(n)] else NatToString(n / 10) + [DigitChar(n % 10)]
  }

  /** The value of a string of decimal digits (the inverse of NatToString). */
  function ParseNat(s: string): nat
    requires AllDigits(s)
  {
    if s == [] then 0 else ParseNat(s[..|s| - 1]) * 10 + (s[|s| - 1] as int - '0' as int)
  }

  lemma {:induction false} NatToStringRoundTrip(n: nat)
    ensures ParseNat(NatToString(n)) == n
  {
    if n >= 10 {
      var s := NatToString(n / 10);
      var t := s + [DigitChar(n % 10)];
      assert t[..|t| - 1] == s;
      NatToStringRoundTrip(n / 10);
    }
  }

  /**
   * A canonical decimal numeral: digits, optionally after one leading minus
   * sign, with no leading zero except the numeral "0" itself, and no "-0".
   */
  predicate IsNumeral(s: string) {
    && |s| >= 1
    && (s[0] == '-' ==> |s| >= 2 && AllDigits(s[1..]) && s[1] != '0')
    && (s[0] != '-' ==> AllDigits(s))
    && (s[0] == '0' ==> |s| == 1)
  }

  /** Decimal form of an int as string concatenation gives it: a minus sign for negatives. */
  function IntToString(i: int): (r: string)
    ensures IsNumeral(r)
    ensures r[0] == '-' <==> i < 0
  {
    if i < 0 then "-" + NatToString(-i) else NatToString(i)
  }

  /** Reads back a numeral produced by IntToString. */
  function ParseInt(s: string): int
    requires IsNumeral(s)
  {
    var magnitude: int := if s[0] == '-' then ParseNat(s[1..]) else ParseNat(s);
    if s[0] == '-' then -magnitude else magnitude
  }

  lemma IntToStringRoundTrip(i: int)
    ensures ParseInt(IntToString(i)) == i
  {
    if i < 0 {
      assert IntToString(i)[1..] == NatToString(-i);
      NatToStringRoundTrip(-i);
    } else {
      NatToStringRoundTrip(i);
    }
  }

  /**
   * The display form `Student{id=<id>, name='<name>', age=<age>}`: the id and
   * the age appear as numerals that read back to them, the name as given.
   */
  function ToString(s: Student): (r: string)
    ensures exists a, b ::
      && IsNumeral(a) && IsNumeral(b)
      && r == "Student{id=" + a + ", name='" + s.name + "', age=" + b + "}"
      && ParseInt(a) == s.id && ParseInt(b) == s.age
  {
    IntToStringRoundTrip(s.id);
    IntToStringRoundTrip(s.age);
    "Student{id=" + IntToString(s.id) + ", name='" + s.name + "', age=" + IntToString(s.age) + "}"
  }

  /** Unfolds ToString once; it keeps the two example proofs below within the resource limit. */
  lemma ToStringFields(s: Student)
    ensures ToString(s) == "Student{id=" + IntToString(s.id) + ", name='" + s.name + "', age=" + IntToString(s.age) + "}"
  {
  }

  /** The numerals of the ids and ages that the display tests use. */
  lemma SmallNumerals()
    ensures IntToString(1) == "1" && IntToString(25) == "25" && IntToString(28) == "28"
  {
    assert NatToString(2) == "2";
  }

  /** The display string the record's own test pins down for a fresh record. */
  lemma ToStringExample()
    ensures ToString(Student(1, "John Doe", 25)) == "Student{id=1, name='John Doe', age=25}"
  {
    ToStringFields(Student(1, "John Doe", 25));
    SmallNumerals();
  }

  /** The display string after the name and age were overwritten. */
  lemma ToStringAfterModificationExample()
    ensures ToString(Student(1, "Jane Smith", 28)) == "Student{id=1, name='Jane Smith', age=28}"
  {
    ToStringFields(Student(1, "Jane Smith", 28));
    SmallNumerals();
  }
}
