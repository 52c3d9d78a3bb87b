/** Natural ordering of names: runs of digits compare as numbers, everything else byte by byte. */
module NaturalOrder {
  import opened Bytes

  predicate IsDigit(c: Byte) { 48 <= c <= 57 }

  predicate AllDigits(s: seq<Byte>) {
    forall k :: 0 <= k < |s| ==> IsDigit(s[k])
  }

  /** What the comparison is meant to see: numbers, and bytes that are not digits. */
  datatype Token = Num(n: nat) | Chr(c: Byte)

  /** The length of the run of digits a string starts with. */
  function RunLength(s: seq<Byte>): (k: nat)
    ensures k <= |s| && AllDigits(s[..k]) && (k < |s| ==> !IsDigit(s[k]))
  {
    if s == [] || !IsDigit(s[0]) then 0
    else
      var k := 1 + RunLength(s[1..]);
      assert forall i :: 0 < i < k ==> s[i] == s[1..][..k - 1][i - 1];
      k
  }

  function Value(digits: seq<Byte>): (n: nat)
    requires AllDigits(digits)
  {
    if digits == [] then 0 else Value(digits[..|digits| - 1]) * 10 + digits[|digits| - 1] - 48
  }

  function Tokens(s: seq<Byte>): (t: seq<Token>) {
    if s == [] then []
    else if IsDigit(s[0]) then [Num(Value(s[..RunLength(s)]))] + Tokens(s[RunLength(s)..])
    else [Chr(s[0])] + Tokens(s[1..])
  }

  function Sign(x: int): (s: int)
    ensures -1 <= s <= 1
  {
    if x < 0 then -1 else if x > 0 then 1 else 0
  }

  /** Bytes below the digits, then numbers, then bytes above the digits. */
  function Class(t: Token): (k: nat) {
    if t.Num? then 1 else if t.c < 48 then 0 else 2
  }

  function Within(t: Token): (k: nat) {
    if t.Num? then t.n else t.c
  }

  function CompareToken(t: Token, u: Token): (r: int)
    ensures -1 <= r <= 1
  {
    if Class(t) != Class(u) then Sign(Class(t) - Class(u)) else Sign(Within(t) - Within(u))
  }

  /** Lexicographic order of token lists, a proper prefix being smaller. */
  function Compare(s: seq<Token>, t: seq<Token>): (r: int)
    ensures -1 <= r <= 1
  {
    if s == [] || t == [] then Sign(|s| - |t|)
    else if CompareToken(s[0], t[0]) != 0 then CompareToken(s[0], t[0])
    else Compare(s[1..], t[1..])
  }

  function Order(a: seq<Byte>, b: seq<Byte>): (r: int)
    ensures -1 <= r <= 1
  {
    Compare(Tokens(a), Tokens(b))
  }

  // The order is a total preorder.

  lemma {:induction false} CompareReverses(s: seq<Token>, t: seq<Token>)
    ensures Compare(t, s) == -Compare(s, t)
  {
    if s != [] && t != [] && CompareToken(s[0], t[0]) == 0 {
      CompareReverses(s[1..], t[1..]);
    }
  }

  lemma CompareTokenTransitive(s: Token, t: Token, u: Token)
    requires CompareToken(s, t) <= 0 && CompareToken(t, u) <= 0
    ensures CompareToken(s, u) <= 0
    ensures CompareToken(s, u) == 0 ==> CompareToken(s, t) == 0 && CompareToken(t, u) == 0
  {
  }

  lemma {:induction false} CompareTransitive(s: seq<Token>, t: seq<Token>, u: seq<Token>)
    requires Compare(s, t) <= 0 && Compare(t, u) <= 0
    ensures Compare(s, u) <= 0
  {
    if s != [] && t != [] && u != [] {
      CompareTokenTransitive(s[0], t[0], u[0]);
      if CompareToken(s[0], u[0]) == 0 {
        CompareTransitive(s[1..], t[1..], u[1..]);
      }
    }
  }

  /** A list of tokens in which no byte is a digit, as every tokenised string is. */
  predicate Proper(t: seq<Token>) {
    forall k :: 0 <= k < |t| && t[k].Chr? ==> !IsDigit(t[k].c)
  }

  lemma {:induction false} TokensProper(s: seq<Byte>)
    ensures Proper(Tokens(s))
    decreases |s|
  {
    if s != [] {
      TokensProper(if IsDigit(s[0]) then s[RunLength(s)..] else s[1..]);
    }
  }

  lemma {:induction false} CompareZero(s: seq<Token>, t: seq<Token>)
    requires Proper(s) && Proper(t)
    ensures Compare(s, t) == 0 <==> s == t
  {
    if s != [] && t != [] && CompareToken(s[0], t[0]) == 0 {
      assert s[0] == t[0];
      CompareZero(s[1..], t[1..]);
      assert s == [s[0]] + s[1..] && t == [t[0]] + t[1..];
    }
  }

  /** The comparison orders all strings, and equates exactly those with the same tokens. */
  lemma OrderIsTotalPreorder(a: seq<Byte>, b: seq<Byte>, c: seq<Byte>)
    ensures Order(a, a) == 0
    ensures Order(b, a) == -Order(a, b)
    ensures Order(a, b) <= 0 && Order(b, c) <= 0 ==> Order(a, c) <= 0
    ensures Order(a, b) == 0 <==> Tokens(a) == Tokens(b)
  {
    TokensProper(a);
    TokensProper(b);
    CompareZero(Tokens(a), Tokens(a));
    CompareZero(Tokens(a), Tokens(b));
    CompareReverses(Tokens(a), Tokens(b));
    if Order(a, b) <= 0 && Order(b, c) <= 0 {
      CompareTransitive(Tokens(a), Tokens(b), Tokens(c));
    }
  }

  // Runs of digits as numbers.

  function Pow10(k: nat): (p: nat)
    ensures p > 0
  {
    if k == 0 then 1 else 10 * Pow10(k - 1)
  }

  lemma {:induction false} Pow10Grows(i: nat, j: nat)
    requires i <= j
    ensures Pow10(i) <= Pow10(j)
    decreases j
  {
    if i < j {
      Pow10Grows(i, j - 1);
    }
  }

  /** The value of a run, seen from its first digit. */
  lemma {:induction false} ValueFront(x: seq<Byte>)
    requires x != [] && AllDigits(x)
    ensures Value(x) == (x[0] - 48) * Pow10(|x| - 1) + Value(x[1..])
    decreases |x|
  {
    var n := |x| - 1;
    if n > 0 {
      ValueFront(x[..n]);
      assert x[..n][1..] == x[1..][..n - 1];
      assert Value(x[1..]) == Value(x[1..][..n - 1]) * 10 + x[n] - 48;
      assert Pow10(n) == 10 * Pow10(n - 1);
      Distribute(x[0] - 48, Pow10(n - 1), Value(x[1..][..n - 1]));
    }
  }

  lemma Distribute(d: int, p: int, v: int)
    ensures (d * p + v) * 10 == d * (10 * p) + v * 10
  {
  }

  lemma DigitTimes(d: int, p: nat)
    ensures 0 <= d <= 9 ==> 0 <= d * p <= 9 * p
    ensures d >= 1 ==> d * p >= p
    ensures d <= -1 ==> d * p <= -1 * p
  {
  }

  lemma {:induction false} ValueBounds(x: seq<Byte>)
    requires AllDigits(x)
    ensures Value(x) < Pow10(|x|)
    ensures x != [] && x[0] != 48 ==> Value(x) >= Pow10(|x| - 1)
    decreases |x|
  {
    if x != [] {
      hide Value;
      ValueBounds(x[1..]);
      ValueFront(x);
      DigitTimes(x[0] - 48, Pow10(|x| - 1));
    } else {
      assert Value(x) == 0;
    }
  }

  lemma StripZero(x: seq<Byte>)
    requires |x| > 1 && AllDigits(x) && x[0] == 48
    ensures Value(x) == Value(x[1..])
  {
    ValueFront(x);
  }

  /** A run with its leading zeros gone, or a single digit. */
  predicate Stripped(x: seq<Byte>) {
    x != [] && AllDigits(x) && (|x| > 1 ==> x[0] != 48)
  }

  /** Stripped runs of different lengths compare as their lengths do. */
  lemma LongerIsLarger(x: seq<Byte>, y: seq<Byte>)
    requires Stripped(x) && Stripped(y) && |x| < |y|
    ensures Value(x) < Value(y)
  {
    ValueBounds(x);
    ValueBounds(y);
    Pow10Grows(|x|, |y| - 1);
  }

  /** The first difference of two strings, as strncmp reports it. */
  function FirstDifference(x: seq<Byte>, y: seq<Byte>): (d: int)
    requires |x| == |y|
  {
    if x == [] then 0 else if x[0] != y[0] then x[0] as int - y[0] as int else FirstDifference(x[1..], y[1..])
  }

  /** Runs of one length compare as strings do. */
  lemma {:induction false} SameLengthCompares(x: seq<Byte>, y: seq<Byte>)
    requires |x| == |y| && AllDigits(x) && AllDigits(y)
    ensures Sign(FirstDifference(x, y)) == Sign(Value(x) - Value(y))
  {
    if x != [] {
      hide Value, Pow10;
      ValueFront(x);
      ValueFront(y);
      if x[0] == y[0] {
        SameLengthCompares(x[1..], y[1..]);
      } else {
        ValueBounds(x[1..]);
        ValueBounds(y[1..]);
        FirstDigitDecides(x[0] - 48, y[0] - 48, Pow10(|x| - 1), Value(x[1..]), Value(y[1..]));
      }
    }
  }

  lemma FirstDigitDecides(c: int, d: int, p: nat, v: nat, w: nat)
    requires c != d && v < p && w < p
    ensures Sign(c - d) == Sign((c * p + v) - (d * p + w))
  {
    DigitTimes(c - d, p);
    assert (c - d) * p == c * p - d * p;
  }

  /** strncmp on two runs of one length. */
  method StrnCmp(x: seq<Byte>, y: seq<Byte>) returns (d: int)
    requires |x| == |y|
    ensures d == FirstDifference(x, y)
  {
    var i := 0;
    while i < |x|
      invariant 0 <= i <= |x| && FirstDifference(x, y) == FirstDifference(x[i..], y[i..])
    {
      if x[i] != y[i] {
        return x[i] as int - y[i] as int;
      }
      i := i + 1;
    }
    return 0;
  }

  /** The end of the run of digits at i. */
  method SkipDigits(s: seq<Byte>, i: nat) returns (j: nat)
    requires i <= |s|
    ensures j == i + RunLength(s[i..]) && j <= |s|
  {
    j := i;
    while j < |s| && IsDigit(s[j])
      invariant i <= j <= |s| && i + RunLength(s[i..]) == j + RunLength(s[j..])
    {
      assert s[j..][1..] == s[j + 1..];
      j := j + 1;
    }
  }

  /** Drops leading zeros of the run s[i..j], but not its last digit. */
  method SkipZeros(s: seq<Byte>, i: nat, j: nat) returns (k: nat)
    requires i < j <= |s| && AllDigits(s[i..j])
    ensures i <= k < j && Stripped(s[k..j]) && Value(s[k..j]) == Value(s[i..j])
  {
    k := i;
    while j - k > 1 && s[k] == 48
      invariant i <= k < j && AllDigits(s[k..j]) && Value(s[k..j]) == Value(s[i..j])
    {
      StripZero(s[k..j]);
      assert s[k..j][1..] == s[k + 1..j];
      k := k + 1;
    }
  }

  /** The two runs at i and j, compared by value. */
  method CompareRuns(a: seq<Byte>, i: nat, i': nat, b: seq<Byte>, j: nat, j': nat) returns (r: int)
    requires i < i' <= |a| && j < j' <= |b| && AllDigits(a[i..i']) && AllDigits(b[j..j'])
    ensures Sign(r) == Sign(Value(a[i..i']) - Value(b[j..j']))
  {
    var p := SkipZeros(a, i, i');
    var q := SkipZeros(b, j, j');
    if i' - p != j' - q {
      if i' - p < j' - q {
        LongerIsLarger(a[p..i'], b[q..j']);
        return -1;
      }
      LongerIsLarger(b[q..j'], a[p..i']);
      return 1;
    }
    r := StrnCmp(a[p..i'], b[q..j']);
    SameLengthCompares(a[p..i'], b[q..j']);
  }

  lemma TokensAtRun(s: seq<Byte>, i: nat)
    requires i < |s| && IsDigit(s[i])
    ensures var j := i + RunLength(s[i..]);
            i < j <= |s| && AllDigits(s[i..j]) && Tokens(s[i..]) == [Num(Value(s[i..j]))] + Tokens(s[j..])
  {
    var k := RunLength(s[i..]);
    assert s[i..][..k] == s[i..i + k];
    assert s[i..][k..] == s[i + k..];
  }

  lemma TokensAtChr(s: seq<Byte>, i: nat)
    requires i < |s| && !IsDigit(s[i])
    ensures Tokens(s[i..]) == [Chr(s[i])] + Tokens(s[i + 1..])
  {
    assert s[i..][1..] == s[i + 1..];
  }

  lemma CompareNums(n: nat, s: seq<Token>, m: nat, t: seq<Token>)
    ensures Compare([Num(n)] + s, [Num(m)] + t) == if n != m then Sign(n - m) else Compare(s, t)
  {
  }

  lemma CompareSameChr(c: Byte, s: seq<Token>, t: seq<Token>)
    ensures Compare([Chr(c)] + s, [Chr(c)] + t) == Compare(s, t)
  {
  }

  /** At the end of both strings nothing is left to compare. */
  lemma BothEnd(a: seq<Byte>, i: nat, b: seq<Byte>, j: nat)
    requires NoNul(a) && NoNul(b) && i <= |a| && j <= |b| && (i == |a| || j == |b|) && At(a, i) == At(b, j)
    ensures Compare(Tokens(a[i..]), Tokens(b[j..])) == 0
  {
  }

  /** The byte under the cursor; the terminator at the end. */
  function At(s: seq<Byte>, i: nat): (c: Byte) {
    if i < |s| then s[i] else 0
  }

  /** Two bytes at token starts, not both digits, compare as the tokens there do. */
  lemma DifferentBytes(a: seq<Byte>, i: nat, b: seq<Byte>, j: nat)
    requires NoNul(a) && NoNul(b) && i <= |a| && j <= |b|
    requires At(a, i) != At(b, j) && !(IsDigit(At(a, i)) && IsDigit(At(b, j)))
    ensures Sign(At(a, i) as int - At(b, j) as int) == Compare(Tokens(a[i..]), Tokens(b[j..]))
  {
    if i < |a| {
      if IsDigit(a[i]) { TokensAtRun(a, i); } else { TokensAtChr(a, i); }
    }
    if j < |b| {
      if IsDigit(b[j]) { TokensAtRun(b, j); } else { TokensAtChr(b, j); }
    }
  }

  /** The comparison: two cursors, always at the start of a token. */
  method NaturalCompare(a: seq<Byte>, b: seq<Byte>) returns (r: int)
    requires NoNul(a) && NoNul(b)
    ensures Sign(r) == Order(a, b)
  {
    hide Tokens, Compare, CompareToken, RunLength, Value;
    var i, j := 0, 0;
    assert a[0..] == a && b[0..] == b;
    while i < |a| && j < |b|
      invariant i <= |a| && j <= |b| && Order(a, b) == Compare(Tokens(a[i..]), Tokens(b[j..]))
      decreases |a| - i
    {
      if IsDigit(a[i]) && IsDigit(b[j]) {
        TokensAtRun(a, i);
        TokensAtRun(b, j);
        var i' := SkipDigits(a, i);
        var j' := SkipDigits(b, j);
        r := CompareRuns(a, i, i', b, j, j');
        CompareNums(Value(a[i..i']), Tokens(a[i'..]), Value(b[j..j']), Tokens(b[j'..]));
        if r != 0 {
          return;
        }
        i, j := i', j';
      } else {
        if a[i] != b[j] {
          DifferentBytes(a, i, b, j);
          return a[i] as int - b[j] as int;
        }
        TokensAtChr(a, i);
        TokensAtChr(b, j);
        CompareSameChr(a[i], Tokens(a[i + 1..]), Tokens(b[j + 1..]));
        i, j := i + 1, j + 1;
      }
    }
    if At(a, i) != At(b, j) {
      DifferentBytes(a, i, b, j);
    } else {
      BothEnd(a, i, b, j);
    }
    return At(a, i) as int - At(b, j) as int;
  }

  /** The sort key used for the candidates: the reverse order. */
  method CompareStringsDesc(a: seq<Byte>, b: seq<Byte>) returns (r: int)
    requires NoNul(a) && NoNul(b)
    ensures Sign(r) == -Order(a, b)
  {
    r := NaturalCompare(b, a);
    OrderIsTotalPreorder(a, b, b);
  }
}
