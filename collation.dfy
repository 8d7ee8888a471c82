/** The string order the docs pages sort with, `localeCompare(b, 'zh-Hans-CN',
    { numeric: true, sensitivity: 'base' })`, written out as an explicit rule:
    a string is read as a sequence of tokens, each maximal run of ASCII digits
    being one number token and every other character one character token
    (ASCII letters folded to lower case); keys are compared token by token,
    numbers by value, numbers before characters, characters by code, and a key
    that is a prefix of another comes first. "2" sorts before "10", and "A1"
    ties with "a01". */
module Collation {
  import opened Text

  datatype Token = Num(value: nat) | Chr(c: char)

  /** Length of the run of ASCII digits at the start of `s`. */
  function DigitRun(s: string): (n: nat)
    ensures n <= |s|
    ensures AllChars(s[..n], IsDigit)
    ensures n < |s| ==> !IsDigit(s[n])
  {
    if s == [] || !IsDigit(s[0]) then 0
    else
      var n := 1 + DigitRun(s[1..]);
      assert s[..n] == [s[0]] + s[1..][..n - 1];
      n
  }

  lemma DigitNotSpace(c: char)
    requires IsDigit(c)
    ensures !IsJsSpace(c)
  {
  }

  /** If `name` is droppable up to `a`, digits from `a` to `b` (at least
      one) and then not a digit, the digits are the leading digits once the
      droppable prefix is stripped. */
  lemma DropThenDigits(name: string, a: nat, b: nat, drop: char -> bool)
    requires a < b < |name| && !IsDigit(name[b]) && !drop(name[a])
    requires forall i :: 0 <= i < a ==> drop(name[i])
    requires forall i :: a <= i < b ==> IsDigit(name[i])
    ensures name[a..b] == StripStart(name, drop)[..DigitRun(StripStart(name, drop))]
  {
    StripStartAt(name, a, drop);
    DigitRunFrom(name, a, b);
    RunOfSuffix(name, a, b, StripStart(name, drop));
  }

  lemma RunOfSuffix(s: string, a: nat, b: nat, t: string)
    requires a <= b <= |s| && t == s[a..] && DigitRun(s[a..]) == b - a
    ensures s[a..b] == t[..DigitRun(t)]
  {
    assert s[a..][..b - a] == s[a..b];
  }

  /** Where the droppable prefix ends, the stripped text begins. */
  lemma StripStartAt(s: string, a: nat, drop: char -> bool)
    requires a < |s| && !drop(s[a])
    requires forall i :: 0 <= i < a ==> drop(s[i])
    ensures StripStart(s, drop) == s[a..]
  {
    StripStartFrom(s, 0, a, drop);
    assert s[0..] == s;
  }

  lemma {:induction false} StripStartFrom(s: string, k: nat, a: nat, drop: char -> bool)
    requires k <= a < |s| && !drop(s[a])
    requires forall i :: k <= i < a ==> drop(s[i])
    ensures StripStart(s[k..], drop) == s[a..]
    decreases a - k
  {
    if k < a {
      assert s[k..][0] == s[k];
      assert s[k..][1..] == s[k + 1..];
      StripStartFrom(s, k + 1, a, drop);
    } else {
      assert s[k..][0] == s[a];
    }
  }

  /** The digit run from `a` ends at the first non-digit `b`. */
  lemma {:induction false} DigitRunFrom(s: string, a: nat, b: nat)
    requires a <= b < |s| && !IsDigit(s[b])
    requires forall i :: a <= i < b ==> IsDigit(s[i])
    ensures DigitRun(s[a..]) == b - a
    decreases b - a
  {
    if a < b {
      assert s[a..][1..] == s[a + 1..];
      DigitRunFrom(s, a + 1, b);
    }
  }

  /** The collation key of a string. */
  function Key(s: string): seq<Token>
    decreases |s|
  {
    if s == [] then []
    else if IsDigit(s[0]) then
      var n := DigitRun(s);
      [Num(DecimalValue(s[..n]))] + Key(s[n..])
    else [Chr(LowerChar(s[0]))] + Key(s[1..])
  }

  function TokenCompare(x: Token, y: Token): (r: int)
    ensures r == 0 <==> x == y
    ensures -1 <= r <= 1
  {
    match (x, y)
    case (Num(a), Num(b)) => if a < b then -1 else if a > b then 1 else 0
    case (Num(_), Chr(_)) => -1
    case (Chr(_), Num(_)) => 1
    case (Chr(a), Chr(b)) => if a < b then -1 else if a > b then 1 else 0
  }

  function KeyCompare(x: seq<Token>, y: seq<Token>): (r: int)
    ensures -1 <= r <= 1
  {
    if x == [] && y == [] then 0
    else if x == [] then -1
    else if y == [] then 1
    else
      var c := TokenCompare(x[0], y[0]);
      if c != 0 then c else KeyCompare(x[1..], y[1..])
  }

  /** The comparator: negative, zero or positive like `localeCompare`. */
  function Compare(a: string, b: string): int {
    KeyCompare(Key(a), Key(b))
  }

  /** `Compare(a, b) <= 0`, the form StableSort takes. */
  predicate Leq(a: string, b: string) {
    Compare(a, b) <= 0
  }

  // ---------------------------------------------------------------------------
  // Compare is a total preorder whose ties are exactly equal keys

  lemma {:induction false} KeyCompareZero(x: seq<Token>, y: seq<Token>)
    ensures KeyCompare(x, y) == 0 <==> x == y
  {
    if x != [] && y != [] && TokenCompare(x[0], y[0]) == 0 {
      KeyCompareZero(x[1..], y[1..]);
      if x[1..] == y[1..] {
        assert x == [x[0]] + x[1..] && y == [y[0]] + y[1..];
      }
    }
  }

  lemma {:induction false} KeyCompareAntisymmetric(x: seq<Token>, y: seq<Token>)
    ensures KeyCompare(x, y) == -KeyCompare(y, x)
  {
    if x != [] && y != [] && TokenCompare(x[0], y[0]) == 0 {
      KeyCompareAntisymmetric(x[1..], y[1..]);
    }
  }

  lemma TokenCompareTransitive(x: Token, y: Token, z: Token)
    requires TokenCompare(x, y) < 0 && TokenCompare(y, z) < 0
    ensures TokenCompare(x, z) < 0
  {
  }

  lemma {:induction false} KeyCompareTransitive(x: seq<Token>, y: seq<Token>, z: seq<Token>)
    requires KeyCompare(x, y) < 0 && KeyCompare(y, z) < 0
    ensures KeyCompare(x, z) < 0
  {
    if x != [] && y != [] && z != [] {
      var cxy, cyz := TokenCompare(x[0], y[0]), TokenCompare(y[0], z[0]);
      if cxy == 0 && cyz == 0 {
        KeyCompareTransitive(x[1..], y[1..], z[1..]);
      } else if cxy < 0 && cyz < 0 {
        TokenCompareTransitive(x[0], y[0], z[0]);
      }
    }
  }

  /** Ties are exactly equal collation keys. */
  lemma CompareZero(a: string, b: string)
    ensures Compare(a, b) == 0 <==> Key(a) == Key(b)
  {
    KeyCompareZero(Key(a), Key(b));
  }

  lemma CompareAntisymmetric(a: string, b: string)
    ensures Compare(a, b) == -Compare(b, a)
  {
    KeyCompareAntisymmetric(Key(a), Key(b));
  }

  lemma CompareTransitive(a: string, b: string, c: string)
    requires Compare(a, b) <= 0 && Compare(b, c) <= 0
    ensures Compare(a, c) <= 0
  {
    KeyCompareZero(Key(a), Key(b));
    KeyCompareZero(Key(b), Key(c));
    if Compare(a, b) < 0 && Compare(b, c) < 0 {
      KeyCompareTransitive(Key(a), Key(b), Key(c));
    }
  }

  /** A string tied with another compares like it against everything. */
  lemma CompareTiedAlike(a: string, b: string, c: string)
    requires Compare(a, b) == 0
    ensures Compare(a, c) == Compare(b, c) && Compare(c, a) == Compare(c, b)
  {
    CompareZero(a, b);
  }

  lemma CompareStrictTransitive(a: string, b: string, c: string)
    requires Compare(a, b) <= 0 && Compare(b, c) <= 0
    requires Compare(a, b) < 0 || Compare(b, c) < 0
    ensures Compare(a, c) < 0
  {
    CompareTransitive(a, b, c);
    if Compare(a, c) == 0 {
      CompareTiedAlike(a, c, b);
      CompareAntisymmetric(b, c);
    }
  }

  /** Compare orders strings totally up to ties, as a sort comparator must. */
  lemma LeqTotalPreorder()
    ensures forall a, b :: Leq(a, b) || Leq(b, a)
    ensures forall a, b, c :: Leq(a, b) && Leq(b, c) ==> Leq(a, c)
  {
    forall a, b ensures Leq(a, b) || Leq(b, a) {
      CompareAntisymmetric(a, b);
    }
    forall a, b, c | Leq(a, b) && Leq(b, c) ensures Leq(a, c) {
      CompareTransitive(a, b, c);
    }
  }

  // ---------------------------------------------------------------------------
  // What the numeric and base-sensitivity options mean

  lemma {:induction false} KeyOfLower(s: string)
    ensures Key(Lower(s)) == Key(s)
    decreases |s|
  {
    if s != [] {
      var l := Lower(s);
      assert l[1..] == Lower(s[1..]);
      if IsDigit(s[0]) {
        var n := DigitRun(s);
        LowerKeepsDigits(s, n);
        assert l[..n] == s[..n];
        assert l[n..] == Lower(s[n..]);
        KeyOfLower(s[n..]);
      } else {
        assert LowerChar(LowerChar(s[0])) == LowerChar(s[0]);
        KeyOfLower(s[1..]);
      }
    }
  }

  lemma LowerKeepsDigits(s: string, n: nat)
    requires n == DigitRun(s)
    ensures DigitRun(Lower(s)) == n
    ensures Lower(s)[..n] == s[..n]
    decreases |s|
  {
    if s != [] && IsDigit(s[0]) {
      LowerKeepsDigits(s[1..], DigitRun(s[1..]));
      assert Lower(s)[1..] == Lower(s[1..]);
    }
  }

  /** Letter case never decides the order. */
  lemma CaseInsensitive(a: string, b: string)
    ensures Compare(a, b) == Compare(Lower(a), Lower(b))
  {
    KeyOfLower(a);
    KeyOfLower(b);
  }

  lemma KeyOfTen()
    ensures Key("10") == [Num(10)]
  {
    assert DigitRun("10") == 2;
    assert "10"[..2] == "10";
    assert "10"[2..] == "";
    assert DecimalValue("10") == 10 by { assert "10"[..1] == "1"; }
  }

  lemma KeyOfOneDotTwo()
    ensures Key("1.2") == [Num(1), Chr('.'), Num(2)]
  {
    assert DigitRun("1.2") == 1;
    assert "1.2"[..1] == "1";
    assert "1.2"[1..] == ".2";
    assert ".2"[1..] == "2";
    assert DigitRun("2") == 1;
    assert "2"[1..] == "";
  }

  lemma KeyOfOneDotTen()
    ensures Key("1.10") == [Num(1), Chr('.'), Num(10)]
  {
    assert DigitRun("1.10") == 1;
    assert "1.10"[..1] == "1";
    assert "1.10"[1..] == ".10";
    assert ".10"[1..] == "10";
    KeyOfTen();
  }

  lemma KeyOfDocTwo()
    ensures Key("Doc2") == [Chr('d'), Chr('o'), Chr('c'), Num(2)]
  {
    assert "Doc2"[1..] == "oc2";
    assert "oc2"[1..] == "c2";
    assert "c2"[1..] == "2";
    assert DigitRun("2") == 1;
    assert "2"[1..] == "";
  }

  lemma KeyOfDocTen()
    ensures Key("doc10") == [Chr('d'), Chr('o'), Chr('c'), Num(10)]
  {
    assert "doc10"[1..] == "oc10";
    assert "oc10"[1..] == "c10";
    assert "c10"[1..] == "10";
    KeyOfTen();
  }

  lemma KeyOfAZeroOne()
    ensures Key("a01") == [Chr('a'), Num(1)]
  {
    assert "a01"[1..] == "01";
    assert DigitRun("01") == 2;
    assert "01"[..2] == "01";
    assert "01"[2..] == "";
    assert DecimalValue("01") == 1 by { assert "01"[..1] == "0"; }
  }

  lemma KeyOfCapitalAOne()
    ensures Key("A1") == [Chr('a'), Num(1)]
  {
    assert "A1"[1..] == "1";
    assert DigitRun("1") == 1;
    assert "1"[1..] == "";
  }

  /** Digit runs compare by value: "2" before "10", "1.2" before "1.10";
      case and leading zeros do not count. */
  lemma NumericExamples()
    ensures Compare("2", "10") < 0
    ensures Compare("1.2", "1.10") < 0
    ensures Compare("Doc2", "doc10") < 0
    ensures Compare("a01", "A1") == 0
  {
    TwoBeforeTen();
    DottedExample();
    DocExample();
    CaseExample();
  }

  lemma TwoBeforeTen()
    ensures Compare("2", "10") < 0
  {
    assert DigitRun("2") == 1 && "2"[1..] == "";
    KeyOfTen();
  }

  lemma DottedExample()
    ensures Compare("1.2", "1.10") < 0
  {
    KeyOfOneDotTwo();
    KeyOfOneDotTen();
    assert [Num(1), Chr('.'), Num(2)][1..] == [Chr('.'), Num(2)];
  }

  lemma DocExample()
    ensures Compare("Doc2", "doc10") < 0
  {
    KeyOfDocTwo();
    KeyOfDocTen();
  }

  lemma CaseExample()
    ensures Compare("a01", "A1") == 0
  {
    KeyOfAZeroOne();
    KeyOfCapitalAOne();
  }
}
