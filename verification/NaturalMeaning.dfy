/** What natural ordering decides about strings, seen from the numbers printed in them. */
module NaturalMeaning {
  import opened Bytes
  import opened NaturalOrder

  /** A number in decimal digits, which are the bytes from 48 on. */
  function Printed(n: nat): (s: seq<Byte>)
    ensures s != []
  {
    (if n < 10 then [] else Printed(n / 10)) + [48 + n % 10]
  }

  function Zeroes(k: nat): (s: seq<Byte>) {
    if k == 0 then [] else [48] + Zeroes(k - 1)
  }

  lemma {:induction false} PrintedDigits(n: nat)
    ensures AllDigits(Printed(n)) && Value(Printed(n)) == n
  {
    if n >= 10 {
      PrintedDigits(n / 10);
      assert Printed(n)[..|Printed(n)| - 1] == Printed(n / 10);
    } else {
      assert Printed(n) == [48 + n];
      assert Value([48 + n][..0]) == 0;
    }
  }

  /** A number with leading zeros, read as a run of digits, is that number. */
  lemma {:induction false} NumberReads(k: nat, n: nat)
    ensures AllDigits(Zeroes(k) + Printed(n)) && Value(Zeroes(k) + Printed(n)) == n
  {
    hide Value;
    PrintedDigits(n);
    if k == 0 {
      assert Zeroes(0) + Printed(n) == Printed(n);
    } else {
      NumberReads(k - 1, n);
      var x := Zeroes(k) + Printed(n);
      assert x[1..] == Zeroes(k - 1) + Printed(n);
      ValueFront(x);
    }
  }

  /** No number goes on across this end. */
  predicate StartsApart(s: seq<Byte>) {
    s == [] || !(48 <= s[0] <= 57)
  }

  predicate EndsApart(s: seq<Byte>) {
    s == [] || !(48 <= s[|s| - 1] <= 57)
  }

  lemma {:induction false} RunIs(x: seq<Byte>, s: seq<Byte>)
    requires AllDigits(x) && StartsApart(s)
    ensures RunLength(x + s) == |x|
  {
    if x == [] {
      assert x + s == s;
    } else {
      assert (x + s)[1..] == x[1..] + s;
      RunIs(x[1..], s);
    }
  }

  /** A run of digits is one token. */
  lemma TokensOfRun(x: seq<Byte>, s: seq<Byte>)
    requires x != [] && AllDigits(x) && StartsApart(s)
    ensures Tokens(x + s) == [Num(Value(x))] + Tokens(s)
  {
    RunIs(x, s);
    assert (x + s)[..|x|] == x && (x + s)[|x|..] == s;
  }

  lemma {:induction false} RunInside(p: seq<Byte>, s: seq<Byte>)
    requires p != [] && EndsApart(p)
    ensures RunLength(p + s) == RunLength(p) < |p|
  {
    if IsDigit(p[0]) {
      assert (p + s)[1..] == p[1..] + s;
      RunInside(p[1..], s);
    }
  }

  /** A prefix that ends in no digit keeps its tokens. */
  lemma {:induction false} TokensOfPrefix(p: seq<Byte>, s: seq<Byte>)
    requires EndsApart(p)
    ensures Tokens(p + s) == Tokens(p) + Tokens(s)
    decreases |p|
  {
    if p == [] {
      assert p + s == s;
    } else {
      RunInside(p, s);
      var k := if IsDigit(p[0]) then RunLength(p) else 1;
      assert (p + s)[..k] == p[..k] && (p + s)[k..] == p[k..] + s;
      TokensOfPrefix(p[k..], s);
    }
  }

  lemma {:induction false} SamePrefix(p: seq<Token>, s: seq<Token>, t: seq<Token>)
    ensures Compare(p + s, p + t) == Compare(s, t)
  {
    if p == [] {
      assert p + s == s && p + t == t;
    } else {
      assert (p + s)[1..] == p[1..] + s && (p + t)[1..] == p[1..] + t;
      SamePrefix(p[1..], s, t);
    }
  }

  /** After a common start the larger number makes the larger string, whatever zeros lead it and whatever follows;
      equal numbers leave the decision to what follows. */
  lemma NumberDecides(p: seq<Byte>, k: nat, m: nat, a: seq<Byte>, l: nat, n: nat, b: seq<Byte>)
    requires EndsApart(p) && StartsApart(a) && StartsApart(b)
    ensures Order(p + (Zeroes(k) + Printed(m) + a), p + (Zeroes(l) + Printed(n) + b))
            == if m < n then -1 else if m > n then 1 else Order(a, b)
  {
    hide Tokens, Compare, Value;
    var x, y := Zeroes(k) + Printed(m), Zeroes(l) + Printed(n);
    NumberReads(k, m);
    NumberReads(l, n);
    TokensOfPrefix(p, x + a);
    TokensOfPrefix(p, y + b);
    TokensOfRun(x, a);
    TokensOfRun(y, b);
    SamePrefix(Tokens(p), Tokens(x + a), Tokens(y + b));
    CompareNums(m, Tokens(a), n, Tokens(b));
  }

  /** After a common start two different bytes, not both digits, decide by their values. */
  lemma ByteDecides(p: seq<Byte>, c: Byte, a: seq<Byte>, d: Byte, b: seq<Byte>)
    requires EndsApart(p) && c < d && !(48 <= c <= 57 && 48 <= d <= 57)
    ensures Order(p + ([c] + a), p + ([d] + b)) == -1
  {
    TokensOfPrefix(p, [c] + a);
    TokensOfPrefix(p, [d] + b);
    SamePrefix(Tokens(p), Tokens([c] + a), Tokens([d] + b));
    FirstToken(c, a);
    FirstToken(d, b);
  }

  lemma FirstToken(c: Byte, a: seq<Byte>)
    ensures Tokens([c] + a) != []
    ensures if 48 <= c <= 57 then Tokens([c] + a)[0].Num? else Tokens([c] + a)[0] == Chr(c)
  {
  }

  /** A string comes after its own proper beginnings, unless they part within a number. */
  lemma LongerComesLater(p: seq<Byte>, a: seq<Byte>)
    requires a != [] && (EndsApart(p) || StartsApart(a))
    ensures Order(p, p + a) == -1
    decreases |p|
  {
    if EndsApart(p) {
      TokensOfPrefix(p, a);
      TokensOfPrefix(p, []);
      assert p + [] == p;
      FirstToken(a[0], a[1..]);
      assert [a[0]] + a[1..] == a;
      SamePrefix(Tokens(p), [], Tokens(a));
      assert Tokens(p) + [] == Tokens(p);
    } else {
      var q, x := LastRun(p);
      assert p + a == q + (x + a) && p == q + (x + []);
      TokensOfPrefix(q, x + a);
      TokensOfPrefix(q, x + []);
      TokensOfRun(x, a);
      TokensOfRun(x, []);
      SamePrefix(Tokens(q), Tokens(x + []), Tokens(x + a));
      FirstToken(a[0], a[1..]);
      assert [a[0]] + a[1..] == a;
      CompareNums(Value(x), [], Value(x), Tokens(a));
    }
  }

  /** The run of digits a string ends with. */
  lemma {:induction false} LastRun(p: seq<Byte>) returns (q: seq<Byte>, x: seq<Byte>)
    requires p != [] && !EndsApart(p)
    ensures p == q + x && EndsApart(q) && x != [] && AllDigits(x)
  {
    var n := |p| - 1;
    if EndsApart(p[..n]) {
      q, x := p[..n], p[n..];
    } else {
      q, x := LastRun(p[..n]);
      x := x + [p[n]];
    }
  }
}
