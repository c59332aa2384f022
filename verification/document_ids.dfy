/** Decimal formatting, and the document ids of streets: no two of them are the same. */
module DocumentIds {
  const DIGITS := "0123456789"

  function Digits(n: nat): (s: string)
    ensures s != ""
    decreases n
  {
    if n < 10 then [DIGITS[n]] else Digits(n / 10) + [DIGITS[n % 10]]
  }

  function Decimal(n: int): string {
    if n < 0 then "-" + Digits(-n) else Digits(n)
  }

  /** The id of the street document number `i` of an OpenStreetMap object. */
  function DocId(kind: string, id: int, single: bool, i: nat): string {
    "street:osm:" + kind + ":" + Decimal(id) + Suffix(single, i)
  }

  function Suffix(single: bool, i: nat): string {
    if single then "" else "-" + Decimal(i)
  }

  // ---------------------------------------------------------------- reading digits back

  predicate IsDigit(c: char) {
    '0' <= c <= '9'
  }

  function ValueOf(s: string): int
    requires forall c :: c in s ==> IsDigit(c)
  {
    if s == "" then 0 else
      var last := s[|s| - 1];
      assert last in s;
      10 * ValueOf(s[..|s| - 1]) + (last as int - '0' as int)
  }

  lemma DigitChars(d: nat)
    requires d < 10
    ensures IsDigit(DIGITS[d]) && DIGITS[d] as int - '0' as int == d
  {
    assert DIGITS == ['0', '1', '2', '3', '4', '5', '6', '7', '8', '9'];
  }

  lemma {:induction false} DigitsReadBack(n: nat)
    ensures forall c :: c in Digits(n) ==> IsDigit(c)
    ensures ValueOf(Digits(n)) == n
    decreases n
  {
    if n < 10 {
      DigitChars(n);
      var s := Digits(n);
      assert s[..|s| - 1] == "" && s[|s| - 1] == DIGITS[n];
      assert ValueOf("") == 0;
    } else {
      DigitChars(n % 10);
      DigitsReadBack(n / 10);
      var s := Digits(n);
      assert s[..|s| - 1] == Digits(n / 10) && s[|s| - 1] == DIGITS[n % 10];
    }
  }

  lemma DigitsInjective(n: nat, m: nat)
    requires Digits(n) == Digits(m)
    ensures n == m
  {
    DigitsReadBack(n);
    DigitsReadBack(m);
  }

  // ---------------------------------------------------------------- cutting a number from what follows

  predicate Cut(rest: string) {
    rest == "" || rest[0] == '-'
  }

  /** A run of digits ends where a non-digit or the end comes. */
  lemma {:induction false} DigitsThenCut(x: string, r: string, y: string, s: string)
    requires (forall c :: c in x ==> IsDigit(c)) && (forall c :: c in y ==> IsDigit(c))
    requires Cut(r) && Cut(s) && x + r == y + s
    ensures x == y && r == s
    decreases |x|
  {
    if x != "" {
      StartsWithDigit(x, r);
    }
    if y != "" {
      StartsWithDigit(y, s);
    }
    assert x == "" ==> x + r == r;
    assert y == "" ==> y + s == s;
    if x != "" && y != "" {
      assert (x + r)[0] == x[0] && (y + s)[0] == y[0];
      assert (x + r)[1..] == x[1..] + r && (y + s)[1..] == y[1..] + s;
      DigitsThenCut(x[1..], r, y[1..], s);
      assert x == [x[0]] + x[1..] && y == [y[0]] + y[1..];
    }
  }

  lemma StartsWithDigit(x: string, r: string)
    requires x != "" && forall c :: c in x ==> IsDigit(c)
    ensures IsDigit((x + r)[0])
  {
    assert x[0] in x;
  }

  function Signed(negative: bool, digits: string): string {
    if negative then "-" + digits else digits
  }

  lemma SignedThenCut(neg: bool, x: string, r: string, neg': bool, y: string, s: string)
    requires x != "" && y != ""
    requires (forall c :: c in x ==> IsDigit(c)) && (forall c :: c in y ==> IsDigit(c))
    requires Cut(r) && Cut(s) && Signed(neg, x) + r == Signed(neg', y) + s
    ensures neg == neg' && x == y && r == s
  {
    SignedHead(neg, x, r);
    SignedHead(neg', y, s);
    assert x[0] in x && y[0] in y;
    SignedTail(neg, x, r);
    SignedTail(neg, y, s);
    DigitsThenCut(x, r, y, s);
  }

  /** The sign in front, and what is left without it. */
  lemma SignedTail(neg: bool, x: string, r: string)
    ensures (Signed(neg, x) + r)[if neg then 1 else 0..] == x + r
  {
  }

  lemma SignedHead(neg: bool, x: string, r: string)
    requires x != ""
    ensures (Signed(neg, x) + r)[0] == if neg then '-' else x[0]
  {
  }

  function Abs(n: int): nat {
    if n < 0 then -n else n
  }

  lemma DecimalIsSigned(n: int)
    ensures Decimal(n) == Signed(n < 0, Digits(Abs(n)))
  {
  }

  lemma DecimalThenCut(n: int, r: string, m: int, s: string)
    requires Cut(r) && Cut(s) && Decimal(n) + r == Decimal(m) + s
    ensures n == m && r == s
  {
    var d, e := Digits(Abs(n)), Digits(Abs(m));
    DecimalIsSigned(n);
    DecimalIsSigned(m);
    DigitsReadBack(Abs(n));
    DigitsReadBack(Abs(m));
    SignedThenCut(n < 0, d, r, m < 0, e, s);
    DigitsInjective(Abs(n), Abs(m));
  }

  lemma SameTail(head: string, a: string, b: string)
    requires head + a == head + b
    ensures a == b
  {
    assert (head + a)[|head|..] == a && (head + b)[|head|..] == b;
  }

  lemma SuffixIsCut(single: bool, i: nat)
    ensures Cut(Suffix(single, i))
  {
  }

  lemma SuffixInjective(single: bool, i: nat, single': bool, i': nat)
    requires Suffix(single, i) == Suffix(single', i')
    ensures single == single' && (!single ==> i == i')
  {
    if !single {
      SameTail("-", Decimal(i), Decimal(i'));
      assert Decimal(i) + "" == Decimal(i) && Decimal(i') + "" == Decimal(i');
      DecimalThenCut(i, "", i', "");
    }
  }

  lemma DocIdTail(kind: string, id: int, single: bool, i: nat)
    ensures DocId(kind, id, single, i) == ("street:osm:" + kind + ":") + (Decimal(id) + Suffix(single, i))
  {
  }

  /** Ids of one kind are equal only for the same object, form and number. */
  lemma DocIdInjective(kind: string, id: int, single: bool, i: nat, id': int, single': bool, i': nat)
    requires DocId(kind, id, single, i) == DocId(kind, id', single', i')
    ensures id == id' && single == single' && (!single ==> i == i')
  {
    DocIdTail(kind, id, single, i);
    DocIdTail(kind, id', single', i');
    var tail, tail' := Decimal(id) + Suffix(single, i), Decimal(id') + Suffix(single', i');
    SameTail("street:osm:" + kind + ":", tail, tail');
    SuffixIsCut(single, i);
    SuffixIsCut(single', i');
    DecimalThenCut(id, Suffix(single, i), id', Suffix(single', i'));
    SuffixInjective(single, i, single', i');
  }

  /** Ids of relations and of ways never meet. */
  lemma DocIdKindsDiffer(id: int, single: bool, i: nat, id': int, single': bool, i': nat)
    ensures DocId("relation", id, single, i) != DocId("way", id', single', i')
  {
    var a, b := DocId("relation", id, single, i), DocId("way", id', single', i');
    assert a[11] == 'r' && b[11] == 'w';
  }
}
