/**
 * The primary key of a permission row, `user_id + "_" + permission_type_id`,
 * where Java's string concatenation prints the integer id in decimal, and its
 * inverse, which shows that the key determines both of its parts.
 */
module PermissionKey {
  import opened Wrappers

  /** Java's `int`. */
  type Int32 = x: int | -0x8000_0000 <= x < 0x8000_0000

  predicate IsDigit(c: char)
  {
    '0' <= c <= '9'
  }

  predicate AllDigits(s: string)
  {
    forall i :: 0 <= i < |s| ==> IsDigit(s[i])
  }

  function DigitChar(d: nat): (c: char)
    requires d < 10
  {
    (d + '0' as int) as char
  }

  function DigitValue(c: char): nat
    requires IsDigit(c)
  {
    c as int - '0' as int
  }

  /** The decimal digits of `n`, most significant first, with no leading zero. */
  function NatToDigits(n: nat): (s: string)
    ensures |s| > 0 && AllDigits(s)
    decreases n
  {
    if n < 10 then [DigitChar(n)] else NatToDigits(n / 10) + [DigitChar(n % 10)]
  }

  /** The value of a string of decimal digits. */
  function DigitsToNat(s: string): nat
    requires AllDigits(s)
    decreases |s|
  {
    if s == [] then 0 else DigitsToNat(s[..|s| - 1]) * 10 + DigitValue(s[|s| - 1])
  }

  /** `String.valueOf(int)`: an optional minus sign and the decimal digits. */
  function IntToString(x: int): string
  {
    if x < 0 then "-" + NatToDigits(-x) else NatToDigits(x)
  }

  /** Reads an optional minus sign followed by at least one decimal digit. */
  function ParseInt(s: string): Option<int>
  {
    if |s| > 1 && s[0] == '-' && AllDigits(s[1..]) then Some(0 - DigitsToNat(s[1..]) as int)
    else if |s| > 0 && AllDigits(s) then Some(DigitsToNat(s))
    else None
  }

  /** The key the writer binds for a permission row. */
  function Key(userId: string, typeId: int): string
  {
    userId + "_" + IntToString(typeId)
  }

  /** The position of the last occurrence of `c` in `s`. */
  function LastIndexOf(s: string, c: char): (r: Option<nat>)
    ensures r.Some? ==> r.value < |s| && s[r.value] == c
    ensures r.Some? ==> forall i :: r.value < i < |s| ==> s[i] != c
    ensures r.None? ==> c !in s
    decreases |s|
  {
    if s == [] then None
    else if s[|s| - 1] == c then Some(|s| - 1)
    else LastIndexOf(s[..|s| - 1], c)
  }

  /** Splits a key at its last `_` into the user id and the permission type id. */
  function Split(key: string): Option<(string, int)>
  {
    match LastIndexOf(key, '_')
    case None => None
    case Some(p) =>
      match ParseInt(key[p + 1..])
      case None => None
      case Some(typeId) => Some((key[..p], typeId))
  }

  lemma {:induction false} DigitsRoundTrip(n: nat)
    ensures DigitsToNat(NatToDigits(n)) == n
    decreases n
  {
    if n >= 10 {
      var s := NatToDigits(n);
      assert s[..|s| - 1] == NatToDigits(n / 10);
      DigitsRoundTrip(n / 10);
    }
  }

  /** Reading back what `String.valueOf` printed gives the same integer. */
  lemma IntRoundTrip(x: int)
    ensures ParseInt(IntToString(x)) == Some(x)
  {
    if x < 0 {
      var s := IntToString(x);
      assert s[1..] == NatToDigits(-x);
      DigitsRoundTrip(-x);
    } else {
      var s := NatToDigits(x);
      DigitsRoundTrip(x);
      assert s[0] != '-';
    }
  }

  /** Split undoes Key, even when the user id itself contains `_`. */
  lemma SplitKey(userId: string, typeId: int)
    ensures Split(Key(userId, typeId)) == Some((userId, typeId))
  {
    var digits := IntToString(typeId);
    var key := Key(userId, typeId);
    assert '_' !in digits by {
      assert digits == NatToDigits(if typeId < 0 then -typeId else typeId)
          || digits == "-" + NatToDigits(-typeId);
    }
    assert key[|userId|] == '_';
    assert forall i :: |userId| < i < |key| ==> key[i] == digits[i - |userId| - 1];
    var p := LastIndexOf(key, '_');
    assert p == Some(|userId|);
    assert key[|userId| + 1..] == digits;
    assert key[..|userId|] == userId;
    IntRoundTrip(typeId);
  }

  /** Two permission keys are equal exactly when both the user ids and the type ids are. */
  lemma KeyInjective(u1: string, t1: int, u2: string, t2: int)
    ensures Key(u1, t1) == Key(u2, t2) <==> u1 == u2 && t1 == t2
  {
    SplitKey(u1, t1);
    SplitKey(u2, t2);
  }
}
