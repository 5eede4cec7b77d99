/** Input validators: password strength, phone-number shape, and the message text
    produced for a failed field rule. */
module Validators {

  const GtePrefix := "Value must be greater than or equal to "
  const LtePrefix := "Value must be less than or equal to "

  /** The message shown for a failed validation rule, given the rule's tag and parameter. */
  function ValidationMessage(tag: string, param: string): (msg: string)
    ensures tag == "required" ==> msg == "This field is required"
    ensures tag == "email" ==> msg == "Invalid email address"
    ensures tag == "min" ==> msg == "Value is too short"
    ensures tag == "max" ==> msg == "Value is too long"
    ensures tag == "gte" ==> msg == GtePrefix + param
    ensures tag == "lte" ==> msg == LtePrefix + param
    ensures tag !in ["required", "email", "min", "max", "gte", "lte"] ==> msg == "Invalid value"
  {
    if tag == "required" then "This field is required"
    else if tag == "email" then "Invalid email address"
    else if tag == "min" then "Value is too short"
    else if tag == "max" then "Value is too long"
    else if tag == "gte" then GtePrefix + param
    else if tag == "lte" then LtePrefix + param
    else "Invalid value"
  }

  /** The parameter of a gte/lte rule can be read back from its message, so two
      different bounds never give the same message. */
  lemma {:induction false} BoundMessageKeepsParam(tag: string, p1: string, p2: string)
    requires tag == "gte" || tag == "lte"
    requires ValidationMessage(tag, p1) == ValidationMessage(tag, p2)
    ensures p1 == p2
  {
    var pre := if tag == "gte" then GtePrefix else LtePrefix;
    assert ValidationMessage(tag, p1) == pre + p1;
    assert ValidationMessage(tag, p2) == pre + p2;
    assert p1 == (pre + p1)[|pre|..];
    assert p2 == (pre + p2)[|pre|..];
  }

  /** Number of bytes of a character in UTF-8, the unit of a string's length. */
  function Utf8Length(c: char): nat
  {
    if c as int < 0x80 then 1
    else if c as int < 0x800 then 2
    else if c as int < 0x10000 then 3
    else 4
  }

  function ByteLength(s: string): (n: nat)
    ensures n >= |s|
  {
    if |s| == 0 then 0 else Utf8Length(s[0]) + ByteLength(s[1..])
  }

  predicate IsUpper(c: char) { 'A' <= c <= 'Z' }
  predicate IsLower(c: char) { 'a' <= c <= 'z' }
  predicate IsDigit(c: char) { '0' <= c <= '9' }

  /** The password policy: at least eight bytes, and at least one upper-case
      letter, one lower-case letter and one digit. */
  predicate StrongPassword(p: string)
  {
    && ByteLength(p) >= 8
    && (exists i :: 0 <= i < |p| && IsUpper(p[i]))
    && (exists i :: 0 <= i < |p| && IsLower(p[i]))
    && (exists i :: 0 <= i < |p| && IsDigit(p[i]))
  }

  method ValidatePassword(password: string) returns (ok: bool)
    ensures ByteLength(password) < 8 ==> !ok
    ensures ok <==> StrongPassword(password)
  {
    if ByteLength(password) < 8 {
      return false;
    }
    var hasUpper, hasLower, hasNumber := false, false, false;
    var i := 0;
    while i < |password|
      invariant 0 <= i <= |password|
      invariant hasUpper <==> exists k :: 0 <= k < i && IsUpper(password[k])
      invariant hasLower <==> exists k :: 0 <= k < i && IsLower(password[k])
      invariant hasNumber <==> exists k :: 0 <= k < i && IsDigit(password[k])
    {
      var c := password[i];
      if IsUpper(c) {
        hasUpper := true;
      } else if IsLower(c) {
        hasLower := true;
      } else if IsDigit(c) {
        hasNumber := true;
      }
      i := i + 1;
    }
    ok := hasUpper && hasLower && hasNumber;
  }

  /** Two to fifteen decimal digits, the first non-zero (the E.164 length bound). */
  predicate PhoneDigits(d: string)
  {
    && 2 <= |d| <= 15
    && '1' <= d[0] <= '9'
    && forall i :: 0 <= i < |d| ==> IsDigit(d[i])
  }

  /** The phone pattern: an optional leading '+', then the digits and nothing else. */
  predicate PhoneShape(s: string)
  {
    PhoneDigits(s) || (|s| > 0 && s[0] == '+' && PhoneDigits(s[1..]))
  }

  method ValidatePhone(phone: string) returns (ok: bool)
    ensures ok <==> PhoneShape(phone)
  {
    var start := if |phone| > 0 && phone[0] == '+' then 1 else 0;
    if |phone| - start < 2 || |phone| - start > 15 || !('1' <= phone[start] <= '9') {
      return false;
    }
    var i := start;
    while i < |phone|
      invariant start <= i <= |phone|
      invariant forall k :: start <= k < i ==> IsDigit(phone[k])
    {
      if !IsDigit(phone[i]) {
        assert !PhoneDigits(phone[start..]);
        return false;
      }
      i := i + 1;
    }
    assert PhoneDigits(phone[start..]);
    ok := true;
  }
}
