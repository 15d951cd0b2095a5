/** Contacts that every part of the program accepts, for the books and files on which a property fails. */
module Samples {
  import opened Text
  import opened Json
  import opened Model
  import opened Validation
  import opened Book

  /** Ten digits and more. */
  type Digits = s: string | |s| >= 10 && forall i :: 0 <= i < |s| ==> IsDigit(s[i]) witness "1234567890"

  type Letter = c: char | 'a' <= c <= 'z' witness 'a'

  /** The contact with an address that starts with the letter and a number of the digits. */
  function Sample(id: string, letter: Letter, digits: Digits, createdAt: string): Contact {
    Contact(id, "Ann", [letter] + "@b.co", "+" + digits, "", createdAt, [])
  }

  /** Another number. */
  function Other(d: Digits): (e: Digits)
    ensures e != d
  {
    d + "0"
  }

  lemma SampleName()
    ensures IsValidName("Ann") && CleanStr("Ann")
  {
    assert "Ann"[1..] == "nn" && "nn"[1..] == "n" && "n"[1..] == "";
    assert Letters("n") == 1 + Letters("");
    assert Letters("nn") == 1 + Letters("n");
  }

  lemma SampleEmail(letter: Letter)
    ensures var e := [letter] + "@b.co"; IsValidEmail(e) && ToLower(e) == e && CleanStr(e)
  {
    var e := [letter] + "@b.co";
    assert e[1] == '@' && e[3] == '.';
    assert EmailParts(e, 1, 3);
  }

  lemma SamplePhone(digits: Digits)
    ensures var p := "+" + digits; IsValidPhone(p) && NormalizePhone(p) == p && CleanStr(p)
  {
    PlusDigits(digits);
  }

  lemma SampleValid(id: string, letter: Letter, digits: Digits, createdAt: string)
    ensures var c := Sample(id, letter, digits, createdAt);
            && IsValidName(c.name) && IsValidEmail(c.email) && IsValidPhone(c.phone)
            && EmailKey(c) == c.email && PhoneKey(c) == c.phone
            && (CleanStr(id) && CleanStr(createdAt) ==> CleanContact(c))
  {
    SampleName();
    SampleEmail(letter);
    SamplePhone(digits);
  }

  /** Other letters and other digits make other keys. */
  lemma SamplesDiffer(id: string, x: Letter, d: Digits, t: string, id': string, y: Letter, e: Digits, u: string)
    ensures EmailKey(Sample(id, x, d, t)) == EmailKey(Sample(id', y, e, u)) <==> x == y
    ensures PhoneKey(Sample(id, x, d, t)) == PhoneKey(Sample(id', y, e, u)) <==> d == e
  {
    SampleValid(id, x, d, t);
    SampleValid(id', y, e, u);
    assert ([x] + "@b.co")[0] == x && ([y] + "@b.co")[0] == y;
    assert ("+" + d)[1..] == d && ("+" + e)[1..] == e;
  }
}
