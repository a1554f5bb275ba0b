// A user of the proof-of-reserve service and the "(id,balance)" string that
// is hashed into a leaf of the Merkle tree.

module Users {
  import opened Wrappers

  /** C#'s `int`: a signed 32-bit integer. */
  type int32 = x: int | -0x8000_0000 <= x < 0x8000_0000

  predicate IsDigit(c: char)
  {
    '0' <= c <= '9'
  }

  predicate AllDigits(s: string)
  {
    forall i :: 0 <= i < |s| ==> IsDigit(s[i])
  }

  function DigitChar(d: nat): (c: char)
    requires d < 10
    ensures IsDigit(c)
  {
    ('0' as int + d) as char
  }

  function DigitValue(c: char): (d: nat)
    requires IsDigit(c)
    ensures d < 10 && DigitChar(d) == c
  {
    c as int - '0' as int
  }

  /** The decimal digits of `n`, most significant first, with no leading zero. */
  function NatToDecimal(n: nat): (s: string)
    ensures |s| >= 1 && AllDigits(s)
    ensures s[0] == '0' ==> n == 0
    decreases n
  {
    if n < 10 then [DigitChar(n)] else NatToDecimal(n / 10) + [DigitChar(n % 10)]
  }

  /** How an `int` is interpolated into a string: a '-' sign, then the decimal digits of its magnitude. */
  function IntToDecimal(x: int): (s: string)
    ensures |s| >= 1 && (s[0] == '-' <==> x < 0)
    ensures x < 0 ==> |s| >= 2 && AllDigits(s[1..])
    ensures x >= 0 ==> AllDigits(s)
  {
    if x < 0 then "-" + NatToDecimal(-x) else NatToDecimal(x)
  }

  /** A user: an identifier and a balance in JPY. */
  datatype User = User(id: int32, balance: int32)
  {
    /** The serialised user, "(id,balance)" with no spaces. */
    function ToString(): (s: string)
      ensures |s| >= 5 && s[0] == '(' && s[|s| - 1] == ')'
    {
      "(" + IntToDecimal(id) + "," + IntToDecimal(balance) + ")"
    }
  }

  // ---------------------------------------------------------------------
  // Reading the serialised form back

  /** The value of a string of decimal digits. */
  function DigitsValue(s: string): nat
    requires AllDigits(s)
  {
    if s == [] then 0 else DigitsValue(s[..|s| - 1]) * 10 + DigitValue(s[|s| - 1])
  }

  /** An optionally '-'-signed decimal integer. */
  function ParseInt(s: string): Option<int>
  {
    if |s| >= 2 && s[0] == '-' && AllDigits(s[1..]) then Some(0 - DigitsValue(s[1..]) as int)
    else if |s| >= 1 && AllDigits(s) then Some(DigitsValue(s))
    else None
  }

  /** The position of the first comma in `s`, or `|s|` when there is none. */
  function FirstComma(s: string): (k: nat)
    ensures k <= |s|
    ensures k < |s| ==> s[k] == ','
    ensures forall i :: 0 <= i < k ==> s[i] != ','
  {
    if s == [] || s[0] == ',' then 0 else 1 + FirstComma(s[1..])
  }

  /** Reads "(id,balance)" back into a user; None for anything else. */
  function ParseUser(s: string): (r: Option<User>)
    ensures r.Some? ==> |s| >= 5 && s[0] == '(' && s[|s| - 1] == ')'
  {
    if |s| >= 2 && s[0] == '(' && s[|s| - 1] == ')' then
      var inner := s[1..|s| - 1];
      var k := FirstComma(inner);
      if k < |inner| then
        match (ParseInt(inner[..k]), ParseInt(inner[k + 1..]))
        case (Some(id), Some(balance)) =>
          if -0x8000_0000 <= id < 0x8000_0000 && -0x8000_0000 <= balance < 0x8000_0000
          then Some(User(id, balance)) else None
        case _ => None
      else None
    else None
  }

  // ---------------------------------------------------------------------
  // Properties

  lemma {:induction false} DigitsValueOfNatToDecimal(n: nat)
    ensures DigitsValue(NatToDecimal(n)) == n
    decreases n
  {
    var s := NatToDecimal(n);
    if n >= 10 {
      DigitsValueOfNatToDecimal(n / 10);
      assert s[..|s| - 1] == NatToDecimal(n / 10);
    }
  }

  /** The decimal text of an integer reads back as that integer. */
  lemma ParseIntOfIntToDecimal(x: int)
    ensures ParseInt(IntToDecimal(x)) == Some(x)
  {
    var s := IntToDecimal(x);
    if x < 0 {
      assert s[1..] == NatToDecimal(-x);
      DigitsValueOfNatToDecimal(-x);
    } else {
      DigitsValueOfNatToDecimal(x);
    }
  }

  lemma IntToDecimalHasNoComma(x: int)
    ensures forall i :: 0 <= i < |IntToDecimal(x)| ==> IntToDecimal(x)[i] != ','
  {
  }

  /** The serialised form reads back as the user it came from. */
  lemma ParseUserOfToString(u: User)
    ensures ParseUser(u.ToString()) == Some(u)
  {
    var a, b := IntToDecimal(u.id), IntToDecimal(u.balance);
    var s := u.ToString();
    var inner := s[1..|s| - 1];
    assert inner == a + "," + b;
    IntToDecimalHasNoComma(u.id);
    FirstCommaAfter(a, b);
    assert inner[..|a|] == a;
    assert inner[|a| + 1..] == b;
    ParseIntOfIntToDecimal(u.id);
    ParseIntOfIntToDecimal(u.balance);
  }

  lemma FirstCommaAfter(a: string, b: string)
    requires forall i :: 0 <= i < |a| ==> a[i] != ','
    ensures FirstComma(a + "," + b) == |a|
  {
    var s := a + "," + b;
    assert s[|a|] == ',';
    assert forall i :: 0 <= i < |a| ==> s[i] == a[i];
  }

  /** Two users serialise alike only when they are the same user, so distinct users get distinct leaves. */
  lemma ToStringInjective(u: User, v: User)
    ensures u.ToString() == v.ToString() ==> u == v
  {
    ParseUserOfToString(u);
    ParseUserOfToString(v);
  }

  /** The serialised form uses only digits, '-', ',', '(' and ')': in particular no spaces. */
  lemma ToStringCharacters(u: User)
    ensures forall i :: 0 <= i < |u.ToString()| ==>
      IsDigit(u.ToString()[i]) || u.ToString()[i] in "-,()"
  {
  }

  /** Exactly one comma, separating the identifier from the balance. */
  lemma ToStringOneComma(u: User)
    ensures |set i | 0 <= i < |u.ToString()| && u.ToString()[i] == ','| == 1
  {
    var s := u.ToString();
    var a := IntToDecimal(u.id);
    IntToDecimalHasNoComma(u.id);
    IntToDecimalHasNoComma(u.balance);
    assert s[1 + |a|] == ',';
    var commas := set i | 0 <= i < |s| && s[i] == ',';
    assert commas == {1 + |a|};
  }

  function Pow10(k: nat): nat
  {
    if k == 0 then 1 else 10 * Pow10(k - 1)
  }

  lemma {:induction false} NatToDecimalLength(n: nat, k: nat)
    requires 1 <= k && n < Pow10(k)
    ensures |NatToDecimal(n)| <= k
    decreases k
  {
    if n >= 10 {
      assert k >= 2;
      NatToDecimalLength(n / 10, k - 1);
    }
  }

  /** A 32-bit field takes at most eleven characters ("-2147483648"), so a serialised user at most 25. */
  lemma ToStringLength(u: User)
    ensures |u.ToString()| <= 25
  {
    assert Pow10(10) == 10000000000;
    if u.id < 0 { NatToDecimalLength(-(u.id as int), 10); } else { NatToDecimalLength(u.id as int, 10); }
    if u.balance < 0 { NatToDecimalLength(-(u.balance as int), 10); } else { NatToDecimalLength(u.balance as int, 10); }
  }
}
