/** Field validation and the normal forms of the two lookup keys. */
module Validation {
  import opened Text

  /** The default country of the process, `ACX_DEFAULT_COUNTRY` or "US": any value, fixed during a run. */
  const DEFAULT_COUNTRY: string

  function CallingCode(country: string): string {
    match country
    case "MX" => "+52"
    case "US" => "+1"
    case "GB" => "+44"
    case "ES" => "+34"
    case "BR" => "+55"
    case _ => "+1"
  }

  function Digits(s: string): (d: string)
    ensures forall c :: c in d ==> IsDigit(c)
  {
    if s == [] then [] else (if IsDigit(s[0]) then [s[0]] else []) + Digits(s[1..])
  }

  /** `normalize_phone_e164` with the default country. */
  function NormalizePhone(phone: string): string {
    var d := Digits(phone);
    if d == [] then d
    else if phone[0] == '+' then "+" + d
    else if |d| >= 10 then CallingCode(DEFAULT_COUNTRY) + d
    else d
  }

  method NormalizePhoneE164(phone: string) returns (n: string)
    ensures n == NormalizePhone(phone)
  {
    var code := CallingCode(DEFAULT_COUNTRY);
    var d := [];
    for i := 0 to |phone|
      invariant d == Digits(phone[..i])
    {
      DigitsAppend(phone[..i], phone[i]);
      assert phone[..i] + [phone[i]] == phone[..i + 1];
      if IsDigit(phone[i]) {
        d := d + [phone[i]];
      }
    }
    assert phone[..|phone|] == phone;
    if d == [] {
      return d;
    }
    if |phone| > 0 && phone[0] == '+' {
      return "+" + d;
    }
    if |d| >= 10 {
      return code + d;
    }
    return d;
  }

  lemma {:induction false} DigitsAppend(s: string, c: char)
    ensures Digits(s + [c]) == Digits(s) + (if IsDigit(c) then [c] else [])
  {
    if s == [] {
      assert (s + [c])[1..] == [];
    } else {
      assert (s + [c])[1..] == s[1..] + [c];
      DigitsAppend(s[1..], c);
    }
  }

  lemma {:induction false} DigitsOfDigits(s: string)
    requires forall c :: c in s ==> IsDigit(c)
    ensures Digits(s) == s
  {
    if s != [] {
      assert s[0] in s;
      DigitsOfDigits(s[1..]);
      assert [s[0]] + s[1..] == s;
    }
  }

  lemma PlusDigits(d: string)
    requires d != [] && forall c :: c in d ==> IsDigit(c)
    ensures NormalizePhone("+" + d) == "+" + d
  {
    DigitsOfDigits(d);
    assert ("+" + d)[1..] == d;
  }

  /** A number with digits, by cases: a plus sign in front is kept, fewer than ten digits are left alone, and a
      longer number gets the calling code of the default country. */
  lemma NumberIs(phone: string)
    requires Digits(phone) != ""
    ensures phone[0] == '+' ==> NormalizePhone(phone) == "+" + Digits(phone)
    ensures phone[0] != '+' && |Digits(phone)| < 10 ==> NormalizePhone(phone) == Digits(phone)
    ensures phone[0] != '+' && |Digits(phone)| >= 10 ==>
              && (DEFAULT_COUNTRY == "MX" ==> NormalizePhone(phone) == "+52" + Digits(phone))
              && (DEFAULT_COUNTRY == "GB" ==> NormalizePhone(phone) == "+44" + Digits(phone))
              && (DEFAULT_COUNTRY == "ES" ==> NormalizePhone(phone) == "+34" + Digits(phone))
              && (DEFAULT_COUNTRY == "BR" ==> NormalizePhone(phone) == "+55" + Digits(phone))
              && (DEFAULT_COUNTRY !in {"MX", "GB", "ES", "BR"} ==> NormalizePhone(phone) == "+1" + Digits(phone))
  {
  }

  /** A number is valid exactly when it has ten digits, or nine after a plus sign in front. */
  lemma ValidPhoneIs(phone: string)
    ensures IsValidPhone(phone) <==> |Digits(phone)| >= if phone != "" && phone[0] == '+' then 9 else 10
  {
    assert |CallingCode(DEFAULT_COUNTRY)| >= 2;
  }

  /** A normalized number is its own normal form. */
  lemma NormalizePhoneIdempotent(phone: string)
    ensures NormalizePhone(NormalizePhone(phone)) == NormalizePhone(phone)
  {
    var d := Digits(phone);
    var code := CallingCode(DEFAULT_COUNTRY);
    if d != [] {
      if phone[0] == '+' {
        PlusDigits(d);
      } else if |d| >= 10 {
        assert code + d == "+" + (code[1..] + d);
        PlusDigits(code[1..] + d);
      } else {
        DigitsOfDigits(d);
        assert d[0] in d;
      }
    }
  }

  /** A normalized number is made of digits after an optional plus. */
  lemma NormalizePhoneChars(phone: string, c: char)
    requires c in NormalizePhone(phone)
    ensures IsDigit(c) || c == '+'
  {
  }

  function Letters(s: string): nat {
    if s == [] then 0 else (if IsAlpha(s[0]) then 1 else 0) + Letters(s[1..])
  }

  predicate NameChar(c: char) {
    IsAlpha(c) || IsSpace(c) || c == '-' || c == '\''
  }

  predicate IsValidName(name: string) {
    |name| >= 2 && (forall c :: c in name ==> NameChar(c)) && Letters(name) >= 2
  }

  lemma {:induction false} LettersOne(s: string)
    ensures Letters(s) >= 1 <==> exists i :: 0 <= i < |s| && IsAlpha(s[i])
  {
    if s != [] {
      LettersOne(s[1..]);
      if i :| 0 <= i < |s[1..]| && IsAlpha(s[1..][i]) {
        assert IsAlpha(s[i + 1]);
      }
      if i :| 0 <= i < |s| && IsAlpha(s[i]) {
        assert i > 0 ==> IsAlpha(s[1..][i - 1]);
      }
    }
  }

  lemma {:induction false} LettersTwo(s: string)
    ensures Letters(s) >= 2 <==> exists i, j :: 0 <= i < j < |s| && IsAlpha(s[i]) && IsAlpha(s[j])
  {
    if s != [] {
      LettersOne(s[1..]);
      LettersTwo(s[1..]);
      if i, j :| 0 <= i < j < |s[1..]| && IsAlpha(s[1..][i]) && IsAlpha(s[1..][j]) {
        assert IsAlpha(s[i + 1]) && IsAlpha(s[j + 1]);
      }
      if j :| 0 <= j < |s[1..]| && IsAlpha(s[1..][j]) {
        assert IsAlpha(s[j + 1]);
      }
      if i, j :| 0 <= i < j < |s| && IsAlpha(s[i]) && IsAlpha(s[j]) {
        assert IsAlpha(s[1..][j - 1]) && (i > 0 ==> IsAlpha(s[1..][i - 1]));
      }
    }
  }

  /** A name is valid exactly when it has letters, white space, hyphens and apostrophes only, and letters at two
      places. */
  lemma ValidNameIs(name: string)
    ensures IsValidName(name) <==>
            && (forall c :: c in name ==> IsAlpha(c) || IsSpace(c) || c == '-' || c == '\'')
            && exists i, j :: 0 <= i < j < |name| && IsAlpha(name[i]) && IsAlpha(name[j])
  {
    LettersTwo(name);
  }

  method CheckName(name: string) returns (ok: bool)
    ensures ok == IsValidName(name)
  {
    if |name| < 2 {
      return false;
    }
    var letters, rest := 0, name;
    while rest != []
      invariant letters + Letters(rest) == Letters(name)
      invariant (forall c :: c in name ==> NameChar(c)) <==> (forall c :: c in rest ==> NameChar(c))
      decreases |rest|
    {
      var c := rest[0];
      assert rest == [c] + rest[1..];
      if IsAlpha(c) {
        letters := letters + 1;
      } else if !(IsSpace(c) || c == '-' || c == '\'') {
        assert c in rest;
        return false;
      }
      rest := rest[1..];
    }
    return letters >= 2;
  }

  predicate LocalChar(c: char) {
    IsAlpha(c) || IsDigit(c) || c in "._%+-"
  }

  predicate DomainChar(c: char) {
    IsAlpha(c) || IsDigit(c) || c == '.' || c == '-'
  }

  /** The address splits into a local part, a domain and a top level of two letters or more. */
  predicate IsValidEmail(s: string) {
    exists at, dot :: 0 < at < dot - 1 && dot < |s| - 2 && s[at] == '@' && s[dot] == '.' && EmailParts(s, at, dot)
  }

  predicate EmailParts(s: string, at: nat, dot: nat)
    requires at < dot < |s|
  {
    && (forall i :: 0 <= i < at ==> LocalChar(s[i]))
    && (forall i :: at < i < dot ==> DomainChar(s[i]))
    && (forall i :: dot < i < |s| ==> IsAlpha(s[i]))
  }

  predicate OfLocal(l: string) {
    l != "" && forall i :: 0 <= i < |l| ==> IsAlpha(l[i]) || IsDigit(l[i]) || l[i] in {'.', '_', '%', '+', '-'}
  }

  predicate OfDomain(d: string) {
    d != "" && forall i :: 0 <= i < |d| ==> IsAlpha(d[i]) || IsDigit(d[i]) || d[i] in {'.', '-'}
  }

  predicate OfTop(t: string) {
    |t| >= 2 && forall i :: 0 <= i < |t| ==> IsAlpha(t[i])
  }

  lemma EmailComposed(l: string, d: string, t: string, s: string)
    requires OfLocal(l) && OfDomain(d) && OfTop(t) && s == l + ("@" + (d + ("." + t)))
    ensures IsValidEmail(s)
  {
    var at, dot := |l|, |l| + 1 + |d|;
    assert s[at] == '@' && s[dot] == '.';
    assert forall i :: 0 <= i < at ==> s[i] == l[i];
    assert forall i :: at < i < dot ==> s[i] == d[i - at - 1];
    assert forall i :: dot < i < |s| ==> s[i] == t[i - dot - 1];
    assert EmailParts(s, at, dot);
  }

  lemma EmailDecomposed(s: string, at: nat, dot: nat) returns (l: string, d: string, t: string)
    requires 0 < at < dot - 1 && dot < |s| - 2 && s[at] == '@' && s[dot] == '.' && EmailParts(s, at, dot)
    ensures OfLocal(l) && OfDomain(d) && OfTop(t) && s == l + ("@" + (d + ("." + t)))
  {
    l, d, t := s[..at], s[at + 1..dot], s[dot + 1..];
    assert forall i :: 0 <= i < |l| ==> l[i] == s[i] && LocalChar(s[i]);
    assert forall i :: 0 <= i < |d| ==> d[i] == s[at + 1 + i] && DomainChar(s[at + 1 + i]);
    assert forall i :: 0 <= i < |t| ==> t[i] == s[dot + 1 + i] && IsAlpha(s[dot + 1 + i]);
  }

  /** An address is valid exactly when it is a local part, an at sign, a domain, a dot and a top level. */
  lemma ValidEmailIs(s: string)
    ensures IsValidEmail(s) <==>
            exists l, d, t :: OfLocal(l) && OfDomain(d) && OfTop(t) && s == l + ("@" + (d + ("." + t)))
  {
    if at, dot :| 0 < at < dot - 1 && dot < |s| - 2 && s[at] == '@' && s[dot] == '.' && EmailParts(s, at, dot) {
      var l, d, t := EmailDecomposed(s, at, dot);
    }
    if l, d, t :| OfLocal(l) && OfDomain(d) && OfTop(t) && s == l + ("@" + (d + ("." + t))) {
      EmailComposed(l, d, t, s);
    }
  }

  /** A valid address can stand as a key in the text index. */
  lemma ValidEmailChars(s: string, c: char)
    requires IsValidEmail(s) && c in s
    ensures IsAlpha(c) || IsDigit(c) || c in "._%+-@"
  {
    var at, dot :| 0 < at < dot - 1 && dot < |s| - 2 && s[at] == '@' && s[dot] == '.' && EmailParts(s, at, dot);
    var i :| 0 <= i < |s| && s[i] == c;
    assert i < at ==> LocalChar(s[i]);
    assert at < i < dot ==> DomainChar(s[i]);
    assert dot < i ==> IsAlpha(s[i]);
  }

  predicate IsValidPhone(phone: string) {
    |NormalizePhone(phone)| >= 10
  }
}
