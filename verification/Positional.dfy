/** Fixed-width positional notation and the order of strings: the arithmetic behind
    `core/ids.py` and the sort keys of `core/eventstore.py`. */
module Positional {
  import opened Wrappers

  /** Python's `<` on strings. */
  predicate Less(a: string, b: string) {
    if b == [] then false
    else if a == [] then true
    else a[0] < b[0] || (a[0] == b[0] && Less(a[1..], b[1..]))
  }

  lemma {:induction false} LessIrreflexive(a: string)
    ensures !Less(a, a)
    decreases |a|
  {
    if a != [] {
      LessIrreflexive(a[1..]);
    }
  }

  lemma {:induction false} CommonPrefix(p: string, a: string, b: string)
    ensures Less(p + a, p + b) == Less(a, b)
    decreases |p|
  {
    if p == [] {
      assert p + a == a && p + b == b;
    } else {
      assert (p + a)[1..] == p[1..] + a && (p + b)[1..] == p[1..] + b;
      CommonPrefix(p[1..], a, b);
    }
  }

  /** What follows two different strings of one length does not change their order. */
  lemma {:induction false} EarlierDifferenceDecides(a: string, b: string, x: string, y: string)
    requires |a| == |b| && Less(a, b)
    ensures Less(a + x, b + y)
    decreases |a|
  {
    if a[0] == b[0] {
      assert (a + x)[1..] == a[1..] + x && (b + y)[1..] == b[1..] + y;
      EarlierDifferenceDecides(a[1..], b[1..], x, y);
    }
  }

  /** An alphabet lists its digits in increasing order. */
  predicate Ordered(alphabet: string) {
    forall i, j | 0 <= i < j < |alphabet| :: alphabet[i] < alphabet[j]
  }

  function Pow(base: nat, n: nat): nat {
    if n == 0 then 1 else base * Pow(base, n - 1)
  }

  lemma {:induction false} MulMonotone(k: nat, x: nat, y: nat)
    requires x <= y
    ensures k * x <= k * y
  {
  }

  /** The digit written last and the value of the digits before it. */
  function Last(v: nat, base: nat): (d: nat)
    requires base > 0
    ensures d < base && v == base * Rest(v, base) + d
  {
    v % base
  }

  function Rest(v: nat, base: nat): (q: nat)
    requires base > 0
  {
    v / base
  }

  /** `value` right-aligned in `width` digits; what does not fit is cut off. */
  function Digits(alphabet: string, value: nat, width: nat): (s: string)
    requires alphabet != []
    ensures |s| == width
    decreases width
  {
    if width == 0 then ""
    else
      var d := Last(value, |alphabet|);
      Digits(alphabet, Rest(value, |alphabet|), width - 1) + [alphabet[d]]
  }

  lemma {:induction false} HigherRest(base: nat, q: nat, d: nat, q': nat, d': nat)
    requires d' < base && q > q'
    ensures base * q + d > base * q' + d'
  {
    MulMonotone(base, q' + 1, q);
    assert base * (q' + 1) == base * q' + base;
  }

  lemma {:induction false} RestFits(value: nat, base: nat, n: nat)
    requires base > 0 && value < Pow(base, n + 1)
    ensures Rest(value, base) < Pow(base, n)
  {
    var q := Rest(value, base);
    var d := Last(value, base);
    if q >= Pow(base, n) {
      MulMonotone(base, Pow(base, n), q);
    }
  }

  lemma {:induction false} RestMonotone(v: nat, w: nat, base: nat)
    requires base > 0 && v < w
    ensures Rest(v, base) < Rest(w, base) || (Rest(v, base) == Rest(w, base) && Last(v, base) < Last(w, base))
  {
    var d, d' := Last(v, base), Last(w, base);
    if Rest(v, base) > Rest(w, base) {
      HigherRest(base, Rest(v, base), d, Rest(w, base), d');
    }
  }

  /** Fixed-width notation is strictly increasing in the value it writes. */
  lemma {:induction false} DigitsIncrease(alphabet: string, v: nat, w: nat, width: nat)
    requires alphabet != [] && Ordered(alphabet)
    requires v < w < Pow(|alphabet|, width)
    ensures Less(Digits(alphabet, v, width), Digits(alphabet, w, width))
    decreases width
  {
    var base := |alphabet|;
    RestFits(w, base, width - 1);
    RestMonotone(v, w, base);
    var high, high' := Digits(alphabet, Rest(v, base), width - 1), Digits(alphabet, Rest(w, base), width - 1);
    var d, d' := Last(v, base), Last(w, base);
    if Rest(v, base) < Rest(w, base) {
      DigitsIncrease(alphabet, Rest(v, base), Rest(w, base), width - 1);
      EarlierDifferenceDecides(high, high', [alphabet[d]], [alphabet[d']]);
    } else {
      CommonPrefix(high, [alphabet[d]], [alphabet[d']]);
    }
  }

  /** The value of a digit, None outside the alphabet: `str.find`. */
  function Find(alphabet: string, c: char): (r: Option<nat>)
    ensures r.Some? ==> r.value < |alphabet| && alphabet[r.value] == c && c !in alphabet[..r.value]
    ensures r.None? ==> c !in alphabet
  {
    if alphabet == [] then None
    else if alphabet[0] == c then Some(0)
    else
      match Find(alphabet[1..], c)
      case None => None
      case Some(i) =>
        assert alphabet[..i + 1] == [alphabet[0]] + alphabet[1..][..i];
        Some(i + 1)
  }

  /** The value a string of digits stands for, most significant digit first. */
  function Parse(alphabet: string, s: string): Option<nat> {
    if s == [] then Some(0)
    else
      match (Parse(alphabet, s[..|s| - 1]), Find(alphabet, s[|s| - 1]))
      case (Some(high), Some(low)) => Some(|alphabet| * high + low)
      case _ => None
  }

  lemma {:induction false} FindsDigit(alphabet: string, i: nat)
    requires Ordered(alphabet) && i < |alphabet|
    ensures Find(alphabet, alphabet[i]) == Some(i)
  {
    assert alphabet[i] in alphabet;
    var k := Find(alphabet, alphabet[i]).value;
    assert forall j | 0 <= j < k :: alphabet[..k][j] == alphabet[j];
    assert forall j | 0 <= j < |alphabet| && j != i :: alphabet[j] != alphabet[i];
  }

  lemma {:induction false} ParseOneMore(alphabet: string, s: string, q: nat, d: nat)
    requires Ordered(alphabet) && d < |alphabet| && Parse(alphabet, s) == Some(q)
    ensures Parse(alphabet, s + [alphabet[d]]) == Some(|alphabet| * q + d)
  {
    FindsDigit(alphabet, d);
    assert (s + [alphabet[d]])[..|s|] == s;
  }

  /** Reading fixed-width notation gives the value back. */
  lemma {:induction false} ParseDigits(alphabet: string, v: nat, width: nat)
    requires alphabet != [] && Ordered(alphabet) && v < Pow(|alphabet|, width)
    ensures Parse(alphabet, Digits(alphabet, v, width)) == Some(v)
    decreases width
  {
    if width == 0 {
      assert v == 0;
    } else {
      RestFits(v, |alphabet|, width - 1);
      ParseDigits(alphabet, Rest(v, |alphabet|), width - 1);
      ParseLastDigit(alphabet, v, width);
    }
  }

  lemma {:induction false} ParseLastDigit(alphabet: string, v: nat, width: nat)
    requires alphabet != [] && Ordered(alphabet) && width > 0
    requires Parse(alphabet, Digits(alphabet, Rest(v, |alphabet|), width - 1)) == Some(Rest(v, |alphabet|))
    ensures Parse(alphabet, Digits(alphabet, v, width)) == Some(v)
  {
    var base := |alphabet|;
    ParseOneMore(alphabet, Digits(alphabet, Rest(v, base), width - 1), Rest(v, base), Last(v, base));
  }

  /** Strings compare at their first difference; a prefix comes before what it begins. */
  lemma {:induction false} LessIff(a: string, b: string)
    ensures Less(a, b) <==>
      exists k | 0 <= k <= |a| && k < |b| :: a[..k] == b[..k] && (k == |a| || a[k] < b[k])
    decreases |a|
  {
    if a != [] && b != [] && a[0] == b[0] {
      LessIff(a[1..], b[1..]);
      if Less(a[1..], b[1..]) {
        var k :| 0 <= k <= |a[1..]| && k < |b[1..]| && a[1..][..k] == b[1..][..k]
                 && (k == |a[1..]| || a[1..][k] < b[1..][k]);
        PrefixGrows(a, b, k);
        assert a[..k + 1] == b[..k + 1];
      }
      if k :| 0 <= k <= |a| && k < |b| && a[..k] == b[..k] && (k == |a| || a[k] < b[k]) {
        PrefixGrows(a, b, k - 1);
        assert a[1..][..k - 1] == b[1..][..k - 1];
      }
    } else if b != [] {
      assert a[..0] == b[..0];
      assert forall k | 0 < k <= |a| && k < |b| :: a[..k][0] == a[0] && b[..k][0] == b[0];
    }
  }

  lemma {:induction false} PrefixGrows(a: string, b: string, k: nat)
    requires k < |a| && k < |b| && a[0] == b[0]
    ensures a[..k + 1] == b[..k + 1] <==> a[1..][..k] == b[1..][..k]
  {
    assert a[..k + 1] == [a[0]] + a[1..][..k] && b[..k + 1] == [b[0]] + b[1..][..k];
    assert a[..k + 1][1..] == a[1..][..k] && b[..k + 1][1..] == b[1..][..k];
  }
}
