/** The two exceptions of the library and the text of their messages. */
module Errors {
  import opened Store

  datatype Error =
    | UndefinedCollectionKey(message: string)   // get() of an absent key
    | InvalidValueType(message: string)         // a typed insert of a value of the wrong class

  /** A value, or the exception that was thrown instead. */
  datatype Result<T> = Ok(value: T) | Err(error: Error)

  /** Normal completion, or the exception that was thrown. */
  datatype Outcome = Pass | Fail(error: Error)

  function DigitChar(d: nat): (c: char)
    requires d < 10
    ensures '0' <= c <= '9' && c as int - '0' as int == d
  {
    ['0', '1', '2', '3', '4', '5', '6', '7', '8', '9'][d]
  }

  /** Decimal digits of n, most significant first (PHP's int-to-string cast). */
  function NatToString(n: nat): (s: string)
    ensures |s| >= 1 && forall i :: 0 <= i < |s| ==> '0' <= s[i] <= '9'
  {
    if n < 10 then [DigitChar(n)] else NatToString(n / 10) + [DigitChar(n % 10)]
  }

  /** Reads a string of decimal digits back as a number. */
  function ParseNat(s: string): nat
    requires forall i :: 0 <= i < |s| ==> '0' <= s[i] <= '9'
  {
    if s == [] then 0
    else 10 * ParseNat(s[..|s| - 1]) + (s[|s| - 1] as int - '0' as int)
  }

  /** The decimal text of a number determines the number. */
  lemma {:induction false} NatToStringRoundTrip(n: nat)
    ensures ParseNat(NatToString(n)) == n
  {
    if n >= 10 {
      var s := NatToString(n);
      assert s[..|s| - 1] == NatToString(n / 10);
      NatToStringRoundTrip(n / 10);
    }
  }

  function IntToString(n: int): string
  {
    if n < 0 then "-" + NatToString(-n) else NatToString(n)
  }

  /** A key as sprintf('%s', $key) prints it. */
  function KeyText(k: Key): string
  {
    match k
    case IntKey(n) => IntToString(n)
    case StrKey(s) => s
  }

  /** The message of UndefinedCollectionKeyException for key k. */
  function MissingKeyMessage(k: Key): string
  {
    "No " + KeyText(k) + " key in the collection"
  }

  /** The message names the key: two messages are equal only for keys that print alike. */
  lemma MissingKeyMessageNamesKey(k1: Key, k2: Key)
    requires MissingKeyMessage(k1) == MissingKeyMessage(k2)
    ensures KeyText(k1) == KeyText(k2)
  {
    var m := MissingKeyMessage(k1);
    assert KeyText(k1) == m[3..|m| - 22];
    assert KeyText(k2) == m[3..|m| - 22];
  }

  /** The message of InvalidValueTypeException for a class name. */
  function InvalidTypeMessage(className: string): string
  {
    "Value must be instance of " + className
  }

  /** The message names the expected class. */
  lemma InvalidTypeMessageNamesClass(c1: string, c2: string)
    requires InvalidTypeMessage(c1) == InvalidTypeMessage(c2)
    ensures c1 == c2
  {
    assert c1 == InvalidTypeMessage(c1)[26..];
  }
}
