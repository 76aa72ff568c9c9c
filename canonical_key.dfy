/** The canonical key of a board: every cell's value in decimal, as
    `std::to_string` writes it, each followed by a `,`, in row-major order.
    The visited set of the search holds these keys, so the property that
    matters is that different boards never share a key. */
module CanonicalKey {

  predicate IsDigit(ch: char) {
    '0' <= ch <= '9'
  }

  function DigitChar(d: int): (ch: char)
    requires 0 <= d < 10
    ensures IsDigit(ch) && ch as int - '0' as int == d
  {
    ('0' as int + d) as char
  }

  /** Decimal digits of n, most significant first, without leading zeros. */
  function NatToString(n: nat): (s: string)
    ensures |s| > 0
    ensures forall k :: 0 <= k < |s| ==> IsDigit(s[k])
  {
    if n < 10 then [DigitChar(n)] else NatToString(n / 10) + [DigitChar(n % 10)]
  }

  /** The decimal text of an int: a `-` for negative values, then the digits
      of its absolute value. */
  function IntToString(v: int): string {
    if v < 0 then "-" + NatToString(-v) else NatToString(v)
  }

  /** One value of the key: its decimal text and the `,` terminator. */
  function Token(v: int): string {
    IntToString(v) + ","
  }

  /** The key of a board: each value's token, in the order of the cells. */
  function Key(b: seq<int>): string {
    if b == [] then "" else Token(b[0]) + Key(b[1..])
  }

  /** Reads decimal digits back, most significant first. */
  function ParseNat(s: string): int {
    if s == [] then 0 else ParseNat(s[..|s| - 1]) * 10 + (s[|s| - 1] as int - '0' as int)
  }

  /** Reads the text of IntToString back. */
  function ParseInt(s: string): int {
    if |s| > 0 && s[0] == '-' then -ParseNat(s[1..]) else ParseNat(s)
  }

  lemma {:induction false} ParseNatToString(n: nat)
    ensures ParseNat(NatToString(n)) == n
  {
    if n >= 10 {
      ParseNatToString(n / 10);
      var s := NatToString(n);
      assert s[..|s| - 1] == NatToString(n / 10);
    }
  }

  /** Reading the decimal text of v back gives v. */
  lemma IntToStringRoundTrip(v: int)
    ensures ParseInt(IntToString(v)) == v
  {
    if v < 0 {
      ParseNatToString(-v);
      assert IntToString(v)[1..] == NatToString(-v);
    } else {
      ParseNatToString(v);
      assert IsDigit(NatToString(v)[0]);
    }
  }

  /** The decimal text never contains the `,` terminator. */
  lemma IntToStringHasNoComma(v: int)
    ensures forall k :: 0 <= k < |IntToString(v)| ==> IntToString(v)[k] != ','
  {
    if v < 0 {
      var s := NatToString(-v);
      assert forall k :: 1 <= k < |IntToString(v)| ==> IntToString(v)[k] == s[k - 1];
    }
  }

  /** Position of the first `,` of a text (its length when there is none). */
  function CommaIndex(w: string): (k: nat)
    ensures k <= |w|
  {
    if w == [] || w[0] == ',' then 0 else 1 + CommaIndex(w[1..])
  }

  /** The first `,` after a comma-free text is the one that ends it. */
  lemma {:induction false} CommaEndsText(d: string, s: string)
    requires forall k :: 0 <= k < |d| ==> d[k] != ','
    ensures CommaIndex(d + [','] + s) == |d|
  {
    if d != [] {
      assert (d + [','] + s)[1..] == d[1..] + [','] + s;
      CommaEndsText(d[1..], s);
    }
  }

  /** A key that starts with the tokens of two values determines both the
      values and what follows them. */
  lemma TokenPrefix(x: int, y: int, s: string, t: string)
    requires Token(x) + s == Token(y) + t
    ensures x == y && s == t
  {
    var dx, dy := IntToString(x), IntToString(y);
    IntToStringHasNoComma(x);
    IntToStringHasNoComma(y);
    var whole := Token(x) + s;
    assert whole == dx + [','] + s;
    assert whole == dy + [','] + t;
    // the first `,` of the key ends both texts
    CommaEndsText(dx, s);
    CommaEndsText(dy, t);
    assert dx == whole[..|dx|] == dy;
    IntToStringRoundTrip(x);
    IntToStringRoundTrip(y);
    assert s == whole[|dx| + 1..] == t;
  }

  /** Two boards have the same key exactly when they are equal. */
  lemma {:induction false} KeyInjective(a: seq<int>, b: seq<int>)
    ensures Key(a) == Key(b) <==> a == b
  {
    if Key(a) == Key(b) {
      if a != [] && b != [] {
        TokenPrefix(a[0], b[0], Key(a[1..]), Key(b[1..]));
        KeyInjective(a[1..], b[1..]);
        assert a == [a[0]] + a[1..];
        assert b == [b[0]] + b[1..];
      }
    }
  }

  /** Appending a value appends its token: the key can be built cell by cell. */
  lemma {:induction false} KeySnoc(b: seq<int>, v: int)
    ensures Key(b + [v]) == Key(b) + Token(v)
  {
    if b != [] {
      assert (b + [v])[1..] == b[1..] + [v];
      KeySnoc(b[1..], v);
    } else {
      assert b + [v] == [v];
    }
  }

  /** The key of a prefix one cell longer ends with that cell's token. */
  lemma KeyPrefixStep(b: seq<int>, p: int)
    requires 0 <= p < |b|
    ensures Key(b[..p + 1]) == Key(b[..p]) + Token(b[p])
  {
    assert b[..p + 1] == b[..p] + [b[p]];
    KeySnoc(b[..p], b[p]);
  }
}
