/** The part of JavaScript's regular expressions the site's patterns use: a
    sequence of single character classes, each repeated between a minimum and
    an optional maximum number of times, greedily or lazily, and the anchors
    `^` and `$` (in multiline mode or not). A match is reported as the list of
    cut positions between consecutive items, from which capture groups are
    slices. The matcher backtracks in the order ECMA-262 prescribes: a greedy
    item tries its longest repetition first, a lazy one its shortest, and the
    first combination that lets the rest of the pattern match wins. */
module Regex {
  import opened Text
  import opened Wrappers

  /** ECMA-262 LineTerminator: what `.` refuses and multiline `^`/`$` key on. */
  predicate IsJsLineTerminator(c: char) {
    c == '\n' || c == '\r' || c == '\U{2028}' || c == '\U{2029}'
  }

  datatype Class =
    | Digit                     // \d
    | Space                     // \s
    | NotLineTerminator         // .
    | AnyChar                   // [\s\S]
    | OneOf(cs: seq<char>)      // [abc] or a literal character
    | NoneOf(cs: seq<char>)     // [^abc]
    | Caseless(c: char)         // a literal letter under the i flag

  predicate InClass(cls: Class, ch: char) {
    match cls
    case Digit => IsDigit(ch)
    case Space => IsJsSpace(ch)
    case NotLineTerminator => !IsJsLineTerminator(ch)
    case AnyChar => true
    case OneOf(cs) => ch in cs
    case NoneOf(cs) => ch !in cs
    case Caseless(c) => LowerChar(ch) == LowerChar(c)
  }

  datatype Item =
    | Rep(cls: Class, min: nat, max: Option<nat>, greedy: bool)
    | InputStart                // ^ without the m flag
    | LineStart                 // ^ with the m flag
    | LineEnd                   // $ with the m flag
    | InputEnd                  // $ without it

  /** The literal `c`, once. */
  function Lit(c: char): Item { Rep(OneOf([c]), 1, Some(1), true) }

  /** The literal text `w`, one item per character. */
  function Lits(w: string): (items: seq<Item>)
    ensures |items| == |w|
    ensures forall i :: 0 <= i < |w| ==> items[i] == Lit(w[i])
  {
    if w == [] then [] else [Lit(w[0])] + Lits(w[1..])
  }

  /** The cuts of `n` one-character items starting at `p`. */
  function Span(p: nat, n: nat): (cuts: seq<nat>)
    ensures |cuts| == n
    ensures forall i :: 0 <= i < n ==> cuts[i] == p + i
    decreases n
  {
    if n == 0 then [] else [p] + Span(p + 1, n - 1)
  }

  predicate AtLineStart(s: string, pos: nat) {
    pos == 0 || (pos <= |s| && IsJsLineTerminator(s[pos - 1]))
  }

  predicate AtLineEnd(s: string, pos: nat) {
    pos == |s| || (pos < |s| && IsJsLineTerminator(s[pos]))
  }

  /** `item` matches exactly `s[from..to]`. */
  predicate ItemFits(item: Item, s: string, from: nat, to: nat) {
    && from <= to <= |s|
    && match item
       case InputStart => from == to == 0
       case LineStart => from == to && AtLineStart(s, from)
       case LineEnd => from == to && AtLineEnd(s, from)
       case InputEnd => from == to == |s|
       case Rep(cls, lo, hi, _) =>
         && lo <= to - from
         && (hi.None? || to - from <= hi.value)
         && forall i :: from <= i < to ==> InClass(cls, s[i])
  }

  /** `cuts` splits `s[pos..]` among `items`: item `i` matches `s[cuts[i]..cuts[i+1]]`.
      This is what a match means, independent of the matcher's search order. */
  predicate Fits(items: seq<Item>, s: string, pos: nat, cuts: seq<nat>) {
    if items == [] then cuts == [pos] && pos <= |s|
    else
      && |cuts| >= 2 && cuts[0] == pos
      && ItemFits(items[0], s, pos, cuts[1])
      && Fits(items[1..], s, cuts[1], cuts[1..])
  }

  // ---------------------------------------------------------------------------
  // The matcher

  /** Length of the run of characters of `cls` starting at `pos`. */
  function Run(cls: Class, s: string, pos: nat): (n: nat)
    requires pos <= |s|
    ensures pos + n <= |s|
    ensures forall i :: pos <= i < pos + n ==> InClass(cls, s[i])
    ensures pos + n < |s| ==> !InClass(cls, s[pos + n])
    decreases |s| - pos
  {
    if pos < |s| && InClass(cls, s[pos]) then 1 + Run(cls, s, pos + 1) else 0
  }

  /** How many repetitions are available: the run, capped by the maximum. */
  function Avail(cls: Class, hi: Option<nat>, s: string, pos: nat): (n: nat)
    requires pos <= |s|
    ensures n <= Run(cls, s, pos)
    ensures hi.Some? ==> n <= hi.value
    ensures hi.None? || n < hi.value ==> n == Run(cls, s, pos)
  {
    var r := Run(cls, s, pos);
    if hi.Some? && hi.value < r then hi.value else r
  }

  function Cons(p: nat, r: Option<seq<nat>>): Option<seq<nat>> {
    if r.Some? then Some([p] + r.value) else None
  }

  /** The first match of `items` at `pos`, in ECMA-262 backtracking order. */
  function Match(items: seq<Item>, s: string, pos: nat): Option<seq<nat>>
    requires pos <= |s|
    decreases |items|, 1, 0
  {
    if items == [] then Some([pos])
    else match items[0]
      case InputStart => if pos == 0 then Cons(pos, Match(items[1..], s, pos)) else None
      case LineStart => if AtLineStart(s, pos) then Cons(pos, Match(items[1..], s, pos)) else None
      case LineEnd => if AtLineEnd(s, pos) then Cons(pos, Match(items[1..], s, pos)) else None
      case InputEnd => if pos == |s| then Cons(pos, Match(items[1..], s, pos)) else None
      case Rep(cls, lo, hi, greedy) =>
        var n := Avail(cls, hi, s, pos);
        if n < lo then None
        else if greedy then TryDown(items[1..], s, pos, lo, n)
        else TryUp(items[1..], s, pos, lo, n)
  }

  /** Greedy: `c` repetitions, then `c - 1`, ... down to `lo`. */
  function TryDown(rest: seq<Item>, s: string, pos: nat, lo: nat, c: nat): Option<seq<nat>>
    requires pos + c <= |s| && lo <= c
    decreases |rest| + 1, 0, c
  {
    var r := Match(rest, s, pos + c);
    if r.Some? then Some([pos] + r.value)
    else if c == lo then None
    else TryDown(rest, s, pos, lo, c - 1)
  }

  /** Lazy: `c` repetitions, then `c + 1`, ... up to `hi`. */
  function TryUp(rest: seq<Item>, s: string, pos: nat, c: nat, hi: nat): Option<seq<nat>>
    requires pos + hi <= |s| && c <= hi
    decreases |rest| + 1, 0, hi - c
  {
    var r := Match(rest, s, pos + c);
    if r.Some? then Some([pos] + r.value)
    else if c == hi then None
    else TryUp(rest, s, pos, c + 1, hi)
  }

  /** `String.prototype.match` with a non-global pattern: the first start
      position, from `from` on, at which the pattern matches. */
  function Search(items: seq<Item>, s: string, from: nat): (r: Option<(nat, seq<nat>)>)
    requires from <= |s|
    ensures r.Some? ==> from <= r.value.0 <= |s| && Match(items, s, r.value.0) == Some(r.value.1)
    ensures r.Some? ==> forall q :: from <= q < r.value.0 ==> Match(items, s, q).None?
    ensures r.None? ==> forall q :: from <= q <= |s| ==> Match(items, s, q).None?
    decreases |s| - from
  {
    var m := Match(items, s, from);
    if m.Some? then Some((from, m.value))
    else if from == |s| then None
    else Search(items, s, from + 1)
  }

  // ---------------------------------------------------------------------------
  // Soundness: what Match returns is a match

  lemma {:induction false} MatchSound(items: seq<Item>, s: string, pos: nat)
    requires pos <= |s|
    ensures Match(items, s, pos).Some? ==> Fits(items, s, pos, Match(items, s, pos).value)
    decreases |items|, 1, 0
  {
    if items != [] {
      match items[0]
      case InputStart => MatchSound(items[1..], s, pos);
      case LineStart => MatchSound(items[1..], s, pos);
      case LineEnd => MatchSound(items[1..], s, pos);
      case InputEnd => MatchSound(items[1..], s, pos);
      case Rep(cls, lo, hi, greedy) =>
        var n := Avail(cls, hi, s, pos);
        if lo <= n {
          if greedy {
            TryDownSound(items[1..], s, pos, lo, n);
          } else {
            TryUpSound(items[1..], s, pos, lo, n);
          }
        }
    }
  }

  lemma {:induction false} TryDownSound(rest: seq<Item>, s: string, pos: nat, lo: nat, c: nat)
    requires pos + c <= |s| && lo <= c
    ensures var r := TryDown(rest, s, pos, lo, c);
      r.Some? ==> && |r.value| >= 2 && r.value[0] == pos && lo <= r.value[1] - pos <= c
                  && Fits(rest, s, r.value[1], r.value[1..])
    decreases |rest| + 1, 0, c
  {
    MatchSound(rest, s, pos + c);
    var r := Match(rest, s, pos + c);
    if r.Some? {
      FitsShape(rest, s, pos + c, r.value);
      assert ([pos] + r.value)[1..] == r.value;
    } else if c != lo {
      TryDownSound(rest, s, pos, lo, c - 1);
    }
  }

  lemma {:induction false} TryUpSound(rest: seq<Item>, s: string, pos: nat, c: nat, hi: nat)
    requires pos + hi <= |s| && c <= hi
    ensures var r := TryUp(rest, s, pos, c, hi);
      r.Some? ==> && |r.value| >= 2 && r.value[0] == pos && c <= r.value[1] - pos <= hi
                  && Fits(rest, s, r.value[1], r.value[1..])
    decreases |rest| + 1, 0, hi - c
  {
    MatchSound(rest, s, pos + c);
    var r := Match(rest, s, pos + c);
    if r.Some? {
      FitsShape(rest, s, pos + c, r.value);
      assert ([pos] + r.value)[1..] == r.value;
    } else if c != hi {
      TryUpSound(rest, s, pos, c + 1, hi);
    }
  }

  /** A match has one cut per item boundary, rising from `pos` and within `s`. */
  lemma {:induction false} FitsShape(items: seq<Item>, s: string, pos: nat, cuts: seq<nat>)
    requires Fits(items, s, pos, cuts)
    ensures |cuts| == |items| + 1 && cuts[0] == pos
    ensures forall i, j :: 0 <= i <= j < |cuts| ==> cuts[i] <= cuts[j] <= |s|
  {
    if items != [] {
      FitsShape(items[1..], s, cuts[1], cuts[1..]);
      forall i, j | 0 <= i <= j < |cuts| ensures cuts[i] <= cuts[j] <= |s| {
        if i > 0 {
          assert cuts[i] == cuts[1..][i - 1] && cuts[j] == cuts[1..][j - 1];
        } else {
          assert j == 0 || cuts[j] == cuts[1..][j - 1];
        }
      }
    }
  }

  /** In a match, every item matches its own slice. */
  lemma {:induction false} FitsItems(items: seq<Item>, s: string, pos: nat, cuts: seq<nat>)
    requires Fits(items, s, pos, cuts)
    ensures |cuts| == |items| + 1
    ensures forall i :: 0 <= i < |items| ==> ItemFits(items[i], s, cuts[i], cuts[i + 1])
  {
    FitsShape(items, s, pos, cuts);
    if items != [] {
      FitsItems(items[1..], s, cuts[1], cuts[1..]);
      forall i | 0 < i < |items| ensures ItemFits(items[i], s, cuts[i], cuts[i + 1]) {
        assert items[i] == items[1..][i - 1];
        assert cuts[i] == cuts[1..][i - 1] && cuts[i + 1] == cuts[1..][i];
      }
    }
  }

  /** Conversely, cuts whose items each match their own slice are a match. */
  lemma {:induction false} FitsOfItems(items: seq<Item>, s: string, pos: nat, cuts: seq<nat>)
    requires |cuts| == |items| + 1 && cuts[0] == pos && cuts[|items|] <= |s|
    requires forall i :: 0 <= i < |items| ==> ItemFits(items[i], s, cuts[i], cuts[i + 1])
    ensures Fits(items, s, pos, cuts)
    decreases |items|
  {
    if items != [] {
      forall i | 0 <= i < |items| - 1
        ensures ItemFits(items[1..][i], s, cuts[1..][i], cuts[1..][i + 1])
      {
        assert items[1..][i] == items[i + 1];
      }
      FitsOfItems(items[1..], s, cuts[1], cuts[1..]);
    }
  }

  // ---------------------------------------------------------------------------
  // Completeness: if there is a match, Match finds one

  lemma {:induction false} RunCovers(cls: Class, s: string, pos: nat, c: nat)
    requires pos + c <= |s|
    requires forall i :: pos <= i < pos + c ==> InClass(cls, s[i])
    ensures c <= Run(cls, s, pos)
    decreases c
  {
    if c > 0 {
      RunCovers(cls, s, pos + 1, c - 1);
    }
  }

  lemma {:induction false} MatchComplete(items: seq<Item>, s: string, pos: nat, cuts: seq<nat>)
    requires Fits(items, s, pos, cuts)
    ensures pos <= |s| && Match(items, s, pos).Some?
    decreases |items|
  {
    FitsShape(items, s, pos, cuts);
    if items != [] {
      MatchComplete(items[1..], s, cuts[1], cuts[1..]);
      match items[0]
      case InputStart =>
      case LineStart =>
      case LineEnd =>
      case InputEnd =>
      case Rep(cls, lo, hi, greedy) =>
        var c := cuts[1] - pos;
        RunCovers(cls, s, pos, c);
        var n := Avail(cls, hi, s, pos);
        if greedy {
          TryDownFinds(items[1..], s, pos, lo, n, c);
        } else {
          TryUpFinds(items[1..], s, pos, lo, n, c);
        }
    }
  }

  lemma {:induction false} TryDownFinds(rest: seq<Item>, s: string, pos: nat, lo: nat, c: nat, k: nat)
    requires pos + c <= |s| && lo <= k <= c
    requires Match(rest, s, pos + k).Some?
    ensures TryDown(rest, s, pos, lo, c).Some?
    decreases c
  {
    if c != k && Match(rest, s, pos + c).None? {
      TryDownFinds(rest, s, pos, lo, c - 1, k);
    }
  }

  lemma {:induction false} TryUpFinds(rest: seq<Item>, s: string, pos: nat, c: nat, hi: nat, k: nat)
    requires pos + hi <= |s| && c <= k <= hi
    requires Match(rest, s, pos + k).Some?
    ensures TryUp(rest, s, pos, c, hi).Some?
    decreases hi - c
  {
    if c != k && Match(rest, s, pos + c).None? {
      TryUpFinds(rest, s, pos, c + 1, hi, k);
    }
  }

  /** Match succeeds exactly when some split of the input fits the pattern. */
  lemma MatchCorrect(items: seq<Item>, s: string, pos: nat, cuts: seq<nat>)
    requires pos <= |s|
    ensures Match(items, s, pos).Some? ==> Fits(items, s, pos, Match(items, s, pos).value)
    ensures Fits(items, s, pos, cuts) ==> Match(items, s, pos).Some?
  {
    MatchSound(items, s, pos);
    if Fits(items, s, pos, cuts) {
      MatchComplete(items, s, pos, cuts);
    }
  }

  // ---------------------------------------------------------------------------
  // Priority: which match is returned

  /** No match exactly when no split fits. */
  lemma MatchNoneIff(items: seq<Item>, s: string, pos: nat)
    requires pos <= |s|
    ensures Match(items, s, pos).None? <==> forall cuts :: !Fits(items, s, pos, cuts)
  {
    MatchSound(items, s, pos);
    if Match(items, s, pos).Some? {
      var cuts := Match(items, s, pos).value;
      assert Fits(items, s, pos, cuts);
      assert exists c: seq<nat> :: Fits(items, s, pos, c);
    } else {
      forall cuts ensures !Fits(items, s, pos, cuts) {
        MatchCorrect(items, s, pos, cuts);
      }
    }
  }

  /** No count strictly above the one TryDown settles on (or, when it fails,
      no count at all) lets the rest match. */
  lemma {:induction false} TryDownFirst(rest: seq<Item>, s: string, pos: nat, lo: nat, c: nat, k: nat)
    requires pos + c <= |s| && lo <= c
    ensures var r := TryDown(rest, s, pos, lo, c);
      (if r.Some? then |r.value| >= 2 && r.value[1] - pos < k <= c else lo <= k <= c)
      ==> Match(rest, s, pos + k).None?
    decreases c
  {
    var m := Match(rest, s, pos + c);
    if m.Some? {
      MatchSound(rest, s, pos + c);
      FitsShape(rest, s, pos + c, m.value);
      assert TryDown(rest, s, pos, lo, c).value[1] == pos + c;
    } else if c != lo {
      TryDownFirst(rest, s, pos, lo, c - 1, k);
    }
  }

  /** No count from `c` up to below the one TryUp settles on (or, when it
      fails, up to `hi`) lets the rest match. */
  lemma {:induction false} TryUpFirst(rest: seq<Item>, s: string, pos: nat, c: nat, hi: nat, k: nat)
    requires pos + hi <= |s| && c <= hi
    ensures var r := TryUp(rest, s, pos, c, hi);
      (if r.Some? then |r.value| >= 2 && c <= k < r.value[1] - pos && k <= hi else c <= k <= hi)
      ==> Match(rest, s, pos + k).None?
    decreases hi - c
  {
    var m := Match(rest, s, pos + c);
    if m.Some? {
      MatchSound(rest, s, pos + c);
      FitsShape(rest, s, pos + c, m.value);
      assert TryUp(rest, s, pos, c, hi).value[1] == pos + c;
    } else if c != hi {
      TryUpFirst(rest, s, pos, c + 1, hi, k);
    }
  }

  /** A lazy item settles on the first count from `c` at which the rest matches. */
  lemma {:induction false} TryUpAt(rest: seq<Item>, s: string, pos: nat, c: nat, hi: nat, k: nat)
    requires pos + hi <= |s| && c <= k <= hi
    requires Match(rest, s, pos + k).Some?
    requires forall q :: pos + c <= q < pos + k ==> Match(rest, s, q).None?
    ensures TryUp(rest, s, pos, c, hi) == Some([pos] + Match(rest, s, pos + k).value)
    decreases k - c
  {
    if c < k {
      TryUpAt(rest, s, pos, c + 1, hi, k);
    }
  }

  /** A lazy item fails when the rest matches after no count from `c` to `hi`. */
  lemma {:induction false} TryUpNone(rest: seq<Item>, s: string, pos: nat, c: nat, hi: nat)
    requires pos + hi <= |s| && c <= hi
    requires forall q :: pos + c <= q <= pos + hi ==> Match(rest, s, q).None?
    ensures TryUp(rest, s, pos, c, hi).None?
    decreases hi - c
  {
    if c < hi {
      TryUpNone(rest, s, pos, c + 1, hi);
    }
  }

  /** A greedy item takes the most repetitions that let the rest match. */
  lemma GreedyTakesMost(items: seq<Item>, s: string, pos: nat, k: nat)
    requires pos + k <= |s| && items != [] && items[0].Rep? && items[0].greedy
    requires Match(items, s, pos).Some?
    requires var cuts := Match(items, s, pos).value;
      |cuts| >= 2 && cuts[1] - pos < k <= Avail(items[0].cls, items[0].max, s, pos)
    ensures Match(items[1..], s, pos + k).None?
  {
    var n := Avail(items[0].cls, items[0].max, s, pos);
    TryDownFirst(items[1..], s, pos, items[0].min, n, k);
  }

  /** A lazy item takes the fewest repetitions that let the rest match. */
  lemma LazyTakesFewest(items: seq<Item>, s: string, pos: nat, k: nat)
    requires pos + k <= |s| && items != [] && items[0].Rep? && !items[0].greedy
    requires Match(items, s, pos).Some?
    requires var cuts := Match(items, s, pos).value;
      |cuts| >= 2 && items[0].min <= k < cuts[1] - pos
    ensures Match(items[1..], s, pos + k).None?
  {
    var n := Avail(items[0].cls, items[0].max, s, pos);
    TryUpSound(items[1..], s, pos, items[0].min, n);
    TryUpFirst(items[1..], s, pos, items[0].min, n, k);
  }

  /** One literal character: it must be the next character of the input. */
  lemma MatchLit(c: char, rest: seq<Item>, s: string, pos: nat)
    requires pos <= |s|
    ensures Match([Lit(c)] + rest, s, pos) ==
      if pos < |s| && s[pos] == c then Cons(pos, Match(rest, s, pos + 1)) else None
  {
    var items := [Lit(c)] + rest;
    assert items[1..] == rest;
    if pos < |s| && s[pos] == c {
      assert Avail(OneOf([c]), Some(1), s, pos) == 1;
    } else {
      assert Avail(OneOf([c]), Some(1), s, pos) == 0;
    }
  }

  lemma OccursAtCons(s: string, w: string, pos: nat)
    requires w != [] && pos <= |s|
    ensures OccursAt(s, w, pos) <==> pos < |s| && s[pos] == w[0] && OccursAt(s, w[1..], pos + 1)
  {
    if OccursAt(s, w, pos) {
      assert s[pos..pos + |w|][0] == w[0];
      assert s[pos + 1..pos + 1 + |w[1..]|] == s[pos..pos + |w|][1..];
    }
    if pos < |s| && s[pos] == w[0] && OccursAt(s, w[1..], pos + 1) {
      assert s[pos..pos + |w|] == [s[pos]] + s[pos + 1..pos + 1 + |w[1..]|];
      assert w == [w[0]] + w[1..];
    }
  }

  /** `cuts` in front of the cuts of a match, if there is one. */
  function Prepend(cuts: seq<nat>, r: Option<seq<nat>>): Option<seq<nat>> {
    if r.Some? then Some(cuts + r.value) else None
  }

  lemma PrependCons(p: nat, cuts: seq<nat>, r: Option<seq<nat>>)
    ensures Cons(p, Prepend(cuts, r)) == Prepend([p] + cuts, r)
  {
    if r.Some? {
      assert [p] + (cuts + r.value) == ([p] + cuts) + r.value;
    }
  }

  /** A literal text matches exactly where it occurs, one character per item,
      and the rest of the pattern goes on after it. */
  lemma {:induction false} MatchLits(w: string, rest: seq<Item>, s: string, pos: nat)
    requires pos <= |s|
    ensures Match(Lits(w) + rest, s, pos) ==
      if OccursAt(s, w, pos) then Prepend(Span(pos, |w|), Match(rest, s, pos + |w|)) else None
    decreases |w|
  {
    if w == [] {
      assert Lits(w) + rest == rest;
      assert OccursAt(s, w, pos);
      var r := Match(rest, s, pos);
      if r.Some? {
        assert Span(pos, 0) + r.value == r.value;
      }
    } else {
      assert Lits(w) + rest == [Lit(w[0])] + (Lits(w[1..]) + rest);
      MatchLit(w[0], Lits(w[1..]) + rest, s, pos);
      OccursAtCons(s, w, pos);
      if pos < |s| && s[pos] == w[0] {
        MatchLits(w[1..], rest, s, pos + 1);
        if OccursAt(s, w, pos) {
          assert Span(pos, |w|) == [pos] + Span(pos + 1, |w| - 1);
          PrependCons(pos, Span(pos + 1, |w| - 1), Match(rest, s, pos + |w|));
        }
      }
    }
  }

  /** With a leading `^` (no m flag), searching is matching at position 0. */
  lemma AnchoredSearch(items: seq<Item>, s: string)
    requires items != [] && items[0] == InputStart
    ensures Search(items, s, 0) == (var m := Match(items, s, 0); if m.Some? then Some((0, m.value)) else None)
  {
    if Match(items, s, 0).None? && |s| > 0 {
      AnchoredSearchFrom(items, s, 1);
    }
  }

  lemma {:induction false} AnchoredSearchFrom(items: seq<Item>, s: string, from: nat)
    requires items != [] && items[0] == InputStart
    requires 0 < from <= |s|
    ensures Search(items, s, from).None?
    decreases |s| - from
  {
    if from < |s| {
      AnchoredSearchFrom(items, s, from + 1);
    }
  }
}
