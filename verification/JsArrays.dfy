/** The pieces of JavaScript's array and number semantics that the engines rely on. */
module JsArrays {

  /** A slice bound: negative bounds count from the back, and all are clamped to the array. */
  function Bound(n: nat, i: int): nat {
    if i < 0 then (if n + i < 0 then 0 else n + i) else if i < n then i else n
  }

  /** `Array.prototype.slice(start, end)`. */
  function Slice<T>(s: seq<T>, start: int, end: int): seq<T> {
    var lo, hi := Bound(|s|, start), Bound(|s|, end);
    if lo < hi then s[lo..hi] else []
  }

  function Clamp(i: int, n: nat): nat {
    if i < 0 then 0 else if i < n then i else n
  }

  /** The elements whose index lies in [start, end): what a caller of a range read expects. */
  function Range<T>(s: seq<T>, start: int, end: int): seq<T> {
    var lo, hi := Clamp(start, |s|), Clamp(end, |s|);
    if lo < hi then s[lo..hi] else []
  }

  /** The bounds of a slice mean what they say: a negative bound changes nothing by counting
      from the back. */
  predicate CountsFromFront(n: nat, start: int, end: int) {
    if start >= 0 then end >= 0 || start >= n + end
    else if end >= 0 then end == 0 || n <= -start
    else end <= start || n + end <= 0
  }

  /** That is exactly when a slice is the range. */
  lemma SliceIsRange<T>(s: seq<T>, start: int, end: int)
    ensures Slice(s, start, end) == Range(s, start, end) <==> CountsFromFront(|s|, start, end)
  {
    if !CountsFromFront(|s|, start, end) {
      assert |Slice(s, start, end)| != |Range(s, start, end)|;
    }
  }

  /** A negative bound stands for the one that is the length of the array further on, or for 0 if
      that is still negative. */
  lemma NegativeBoundsCountFromBack<T>(s: seq<T>, start: int, end: int)
    ensures start < 0 ==> Slice(s, start, end) == Slice(s, if start + |s| < 0 then 0 else start + |s|, end)
    ensures end < 0 ==> Slice(s, start, end) == Slice(s, start, if end + |s| < 0 then 0 else end + |s|)
    ensures start >= 0 && end >= 0 ==> Slice(s, start, end) == Range(s, start, end)
  {
  }

  lemma RangeAt<T>(s: seq<T>, start: nat, end: int, i: nat)
    requires start <= i < end && i < |s|
    ensures i - start < |Range(s, start, end)| && Range(s, start, end)[i - start] == s[i]
  {
  }

  lemma RangeLength<T>(s: seq<T>, start: int, end: int)
    ensures Range(s, start, end) == [] || |Range(s, start, end)| <= end - start
  {
  }
}

/** Chunk identifiers, `chunk_${a}_${b}`. */
module ChunkKeys {

  function Digit(d: nat): char
    requires d < 10
  {
    "0123456789"[d]
  }

  function Digits(n: nat): (t: string)
    ensures t != [] && forall c :: c in t ==> '0' <= c <= '9'
  {
    if n < 10 then [Digit(n)] else Digits(n / 10) + [Digit(n % 10)]
  }

  function Text(i: int): (t: string)
    ensures '_' !in t
  {
    if i < 0 then "-" + Digits(-i) else Digits(i)
  }

  function Key(a: int, b: int): string {
    "chunk_" + Text(a) + "_" + Text(b)
  }

  lemma LastDigit(n: nat)
    ensures var t := Digits(n);
            t[|t| - 1] == Digit(n % 10) && t[..|t| - 1] == if n < 10 then [] else Digits(n / 10)
  {
  }

  lemma DigitIsInjective(c: nat, d: nat)
    requires c < 10 && d < 10 && Digit(c) == Digit(d)
    ensures c == d
  {
  }

  lemma {:induction false} DigitsAreInjective(m: nat, n: nat)
    requires Digits(m) == Digits(n)
    ensures m == n
  {
    hide Digits, Digit;
    LastDigit(m);
    LastDigit(n);
    DigitIsInjective(m % 10, n % 10);
    if m >= 10 && n >= 10 {
      DigitsAreInjective(m / 10, n / 10);
    }
  }

  lemma SignOfText(i: int)
    ensures Text(i)[0] == '-' <==> i < 0
    ensures i < 0 ==> Text(i)[1..] == Digits(-i)
  {
    if i >= 0 {
      assert Digits(i)[0] in Digits(i);
    }
  }

  lemma TextIsInjective(i: int, j: int)
    requires Text(i) == Text(j)
    ensures i == j
  {
    hide Digits;
    SignOfText(i);
    SignOfText(j);
    if i < 0 {
      DigitsAreInjective(-i, -j);
    } else {
      DigitsAreInjective(i, j);
    }
  }

  /** The number that decimal digits stand for. */
  function Value(t: string): int {
    if t == [] then 0 else 10 * Value(t[..|t| - 1]) + (t[|t| - 1] as int - '0' as int)
  }

  lemma DigitIsValue(d: nat)
    requires d < 10
    ensures Digit(d) as int - '0' as int == d
  {
  }

  /** Digits are the decimal notation: they stand for their number, and begin with 0 only for 0. */
  lemma {:induction false} DigitsAreDecimal(n: nat)
    ensures Value(Digits(n)) == n && (Digits(n)[0] == '0' ==> n == 0)
  {
    LastDigit(n);
    DigitIsValue(n % 10);
    hide Digit;
    if n >= 10 {
      DigitsAreDecimal(n / 10);
    }
  }

  /** A key is the text `chunk_a_b` with both numbers in decimal notation. */
  lemma KeyReads(a: int, b: int)
    ensures Key(a, b) == "chunk_" + Text(a) + "_" + Text(b)
    ensures a >= 0 ==> Value(Text(a)) == a
    ensures a < 0 ==> Text(a)[0] == '-' && Value(Text(a)[1..]) == -a
  {
    if a >= 0 {
      DigitsAreDecimal(a);
    } else {
      DigitsAreDecimal(-a);
      SignOfText(a);
    }
  }

  lemma SeparatorSplits(a: string, b: string, a': string, b': string)
    requires a + "_" + b == a' + "_" + b' && '_' !in a && '_' !in a'
    ensures a == a' && b == b'
  {
    var s, s' := a + "_" + b, a' + "_" + b';
    assert s[|a|] == '_' && s'[|a'|] == '_';
    assert forall i :: 0 <= i < |a| ==> s[i] == a[i];
    assert forall i :: 0 <= i < |a'| ==> s'[i] == a'[i];
    assert |a| == |a'|;
    assert s[..|a|] == a && s'[..|a'|] == a';
    assert s[|a| + 1..] == b && s'[|a'| + 1..] == b';
  }

  /** Two different ranges never share a key. */
  lemma KeyIsInjective(a: int, b: int, a': int, b': int)
    requires Key(a, b) == Key(a', b')
    ensures a == a' && b == b'
  {
    hide Text;
    assert Key(a, b)[6..] == Text(a) + "_" + Text(b);
    assert Key(a', b')[6..] == Text(a') + "_" + Text(b');
    SeparatorSplits(Text(a), Text(b), Text(a'), Text(b'));
    TextIsInjective(a, a');
    TextIsInjective(b, b');
  }
}
