/** ULIDs: `core/ids.py`. Milliseconds stand for the datetime they are taken from. */
module EventIds {
  import opened Wrappers
  import opened Positional

  // Crockford base 32
  const ALPHABET := "0123456789ABCDEFGHJKMNPQRSTVWXYZ"

  const TIMESTAMP_CHARS := 10
  const RANDOM_CHARS := 16
  const ULID_LENGTH := 26

  lemma {:induction false} AlphabetOrdered()
    ensures |ALPHABET| == 32 && Ordered(ALPHABET)
  {
    assert forall i | 0 <= i < 31 :: ALPHABET[i] < ALPHABET[i + 1];
    forall i, j | 0 <= i < j < |ALPHABET|
      ensures ALPHABET[i] < ALPHABET[j]
    {
      Ascends(i, j);
    }
  }

  lemma {:induction false} Ascends(i: nat, j: nat)
    requires i < j < |ALPHABET|
    requires forall k | 0 <= k < 31 :: ALPHABET[k] < ALPHABET[k + 1]
    ensures ALPHABET[i] < ALPHABET[j]
    decreases j
  {
    assert ALPHABET[j - 1] < ALPHABET[j - 1 + 1];
    if i < j - 1 {
      Ascends(i, j - 1);
    }
  }

  predicate Fits(value: int, width: nat) {
    0 <= value < Pow(32, width)
  }

  /** `value` in `width` base-32 digits, None when it does not fit. */
  function Encoded(value: int, width: nat): (r: Option<string>)
    ensures r.Some? <==> Fits(value, width)
    ensures r.Some? ==> |r.value| == width
  {
    if Fits(value, width) then Some(Digits(ALPHABET, value, width)) else None
  }

  function Reversed(s: string): (r: string)
    ensures |r| == |s|
  {
    if s == [] then [] else Reversed(s[1..]) + [s[0]]
  }

  lemma {:induction false} ReversedAppend(s: string, c: char)
    ensures Reversed(s + [c]) == [c] + Reversed(s)
  {
    if s == [] {
      assert s + [c] == [c];
    } else {
      assert (s + [c])[1..] == s[1..] + [c];
      ReversedAppend(s[1..], c);
    }
  }

  method Encode(value: int, width: nat) returns (r: Option<string>)
    ensures r == Encoded(value, width)
  {
    if !Fits(value, width) {
      return None;
    }
    var out, rest: nat := [], value;
    for i := 0 to width
      invariant Digits(ALPHABET, value, width) == Digits(ALPHABET, rest, width - i) + Reversed(out)
    {
      var d := Last(rest, 32);
      ReversedAppend(out, ALPHABET[d]);
      out := out + [ALPHABET[d]];
      rest := Rest(rest, 32);
    }
    assert "" + Reversed(out) == Reversed(out);
    return Some(Reversed(out));
  }

  /** `int.from_bytes(entropy, "big")`. */
  function BigEndian(entropy: seq<byte>): nat {
    if entropy == [] then 0
    else BigEndian(entropy[..|entropy| - 1]) * 256 + entropy[|entropy| - 1]
  }

  lemma {:induction false} BigEndianBound(entropy: seq<byte>)
    ensures BigEndian(entropy) < Pow(256, |entropy|)
    decreases |entropy|
  {
    if entropy != [] {
      BigEndianBound(entropy[..|entropy| - 1]);
    }
  }

  lemma {:induction false} TenBytesFit(entropy: seq<byte>)
    requires |entropy| == 10
    ensures Fits(BigEndian(entropy), RANDOM_CHARS)
  {
    BigEndianBound(entropy);
    Unfold256();
    Unfold32();
  }

  lemma {:induction false} Unfold256()
    ensures Pow(256, 10) == 0x1_0000_0000_0000_0000_0000
  {
    assert Pow(256, 1) == 256;
    assert Pow(256, 2) == 256 * Pow(256, 1);
    assert Pow(256, 3) == 256 * Pow(256, 2);
    assert Pow(256, 4) == 256 * Pow(256, 3);
    assert Pow(256, 5) == 256 * Pow(256, 4);
    assert Pow(256, 6) == 256 * Pow(256, 5);
    assert Pow(256, 7) == 256 * Pow(256, 6);
    assert Pow(256, 8) == 256 * Pow(256, 7);
    assert Pow(256, 9) == 256 * Pow(256, 8);
  }

  lemma {:induction false} Unfold32()
    ensures Pow(32, RANDOM_CHARS) == 0x1_0000_0000_0000_0000_0000
  {
    assert Pow(32, 1) == 32;
    assert Pow(32, 2) == 32 * Pow(32, 1);
    assert Pow(32, 3) == 32 * Pow(32, 2);
    assert Pow(32, 4) == 32 * Pow(32, 3);
    assert Pow(32, 5) == 32 * Pow(32, 4);
    assert Pow(32, 6) == 32 * Pow(32, 5);
    assert Pow(32, 7) == 32 * Pow(32, 6);
    assert Pow(32, 8) == 32 * Pow(32, 7);
    assert Pow(32, 9) == 32 * Pow(32, 8);
    assert Pow(32, 10) == 32 * Pow(32, 9);
    assert Pow(32, 11) == 32 * Pow(32, 10);
    assert Pow(32, 12) == 32 * Pow(32, 11);
    assert Pow(32, 13) == 32 * Pow(32, 12);
    assert Pow(32, 14) == 32 * Pow(32, 13);
    assert Pow(32, 15) == 32 * Pow(32, 14);
  }

  /** A new id, None where the source raises. */
  function NewEventId(milliseconds: int, entropy: seq<byte>): Option<string> {
    if |entropy| != 10 then None
    else
      match (Encoded(milliseconds, TIMESTAMP_CHARS), Encoded(BigEndian(entropy), RANDOM_CHARS))
      case (Some(time), Some(noise)) => Some(time + noise)
      case _ => None
  }

  /** `str.upper`. Of the characters outside ASCII only long s, sharp s and three ligatures
      become letters of the alphabet; the rest are refused in upper case as they are. */
  function UpperChar(c: char): string {
    if 'a' <= c <= 'z' then [(c as int - 32) as char]
    else if c == '\U{017F}' then "S"
    else if c == '\U{00DF}' then "SS"
    else if c == '\U{FB00}' then "FF"
    else if c == '\U{FB05}' || c == '\U{FB06}' then "ST"
    else [c]
  }

  function Upper(s: string): string {
    if s == "" then "" else Upper(s[..|s| - 1]) + UpperChar(s[|s| - 1])
  }

  /** The milliseconds in an id, None where the source raises. */
  function Timestamp(id: string): Option<nat> {
    if |id| != ULID_LENGTH then None else Parse(ALPHABET, Upper(id[..TIMESTAMP_CHARS]))
  }

  lemma {:induction false} ParseFailsOn(alphabet: string, s: string, k: nat)
    requires k <= |s| && Parse(alphabet, s[..k]).None?
    ensures Parse(alphabet, s).None?
    decreases |s|
  {
    if k < |s| {
      assert s[..|s| - 1][..k] == s[..k];
      ParseFailsOn(alphabet, s[..|s| - 1], k);
    } else {
      assert s[..k] == s;
    }
  }

  /** The loop of `timestamp_of`. */
  method ReadDigits(alphabet: string, text: string) returns (r: Option<nat>)
    ensures r == Parse(alphabet, text)
  {
    var total: nat := 0;
    for i := 0 to |text|
      invariant Parse(alphabet, text[..i]) == Some(total)
    {
      var index := Find(alphabet, text[i]);
      assert text[..i + 1][..i] == text[..i];
      if index.None? {
        ParseFailsOn(alphabet, text, i + 1);
        return None;
      }
      total := |alphabet| * total + index.value;
    }
    assert text[..|text|] == text;
    return Some(total);
  }

  method TimestampOf(id: string) returns (r: Option<nat>)
    ensures r == Timestamp(id)
  {
    if |id| != ULID_LENGTH {
      return None;
    }
    r := ReadDigits(ALPHABET, Upper(id[..TIMESTAMP_CHARS]));
  }

  // ----- what the encoding keeps -----

  /** String order is numeric order on everything that fits. */
  lemma {:induction false} EncodeIncreases(v: nat, w: nat, width: nat)
    requires v < w && Fits(w, width)
    ensures Encoded(v, width).Some? && Encoded(w, width).Some?
    ensures Less(Encoded(v, width).value, Encoded(w, width).value)
  {
    AlphabetOrdered();
    DigitsIncrease(ALPHABET, v, w, width);
  }

  lemma {:induction false} DigitsUpper(v: nat, width: nat)
    ensures Upper(Digits(ALPHABET, v, width)) == Digits(ALPHABET, v, width)
    decreases width
  {
    if width > 0 {
      var before, d := Digits(ALPHABET, Rest(v, 32), width - 1), Last(v, 32);
      DigitsUpper(Rest(v, 32), width - 1);
      UpperLetter(d);
      assert (before + [ALPHABET[d]])[..|before|] == before;
    }
  }

  lemma {:induction false} UpperLetter(d: nat)
    requires d < 32
    ensures UpperChar(ALPHABET[d]) == [ALPHABET[d]]
  {}

  /** Every in-range moment gets an id of 26 characters, and the id gives it back. */
  lemma {:induction false} IdRoundTrip(milliseconds: int, entropy: seq<byte>)
    requires |entropy| == 10
    ensures NewEventId(milliseconds, entropy).Some? <==> Fits(milliseconds, TIMESTAMP_CHARS)
    ensures NewEventId(milliseconds, entropy).Some? ==>
      var id := NewEventId(milliseconds, entropy).value;
      |id| == ULID_LENGTH && Timestamp(id) == Some(milliseconds)
  {
    TenBytesFit(entropy);
    if Fits(milliseconds, TIMESTAMP_CHARS) {
      TimeReadsBack(milliseconds, Encoded(BigEndian(entropy), RANDOM_CHARS).value);
    }
  }

  lemma {:induction false} TimeReadsBack(milliseconds: nat, noise: string)
    requires Fits(milliseconds, TIMESTAMP_CHARS) && |noise| == RANDOM_CHARS
    ensures Timestamp(Digits(ALPHABET, milliseconds, TIMESTAMP_CHARS) + noise) == Some(milliseconds)
  {
    var time := Digits(ALPHABET, milliseconds, TIMESTAMP_CHARS);
    assert (time + noise)[..TIMESTAMP_CHARS] == time;
    DigitsUpper(milliseconds, TIMESTAMP_CHARS);
    AlphabetOrdered();
    ParseDigits(ALPHABET, milliseconds, TIMESTAMP_CHARS);
  }

  /** Ids of different milliseconds sort by time, whatever their entropy. */
  lemma {:induction false} IdsSortByTime(t: int, u: int, entropy: seq<byte>, entropy': seq<byte>)
    requires NewEventId(t, entropy).Some? && NewEventId(u, entropy').Some? && t < u
    ensures Less(NewEventId(t, entropy).value, NewEventId(u, entropy').value)
  {
    EncodeIncreases(t, u, TIMESTAMP_CHARS);
    EarlierDifferenceDecides(
      Encoded(t, TIMESTAMP_CHARS).value, Encoded(u, TIMESTAMP_CHARS).value,
      Encoded(BigEndian(entropy), RANDOM_CHARS).value, Encoded(BigEndian(entropy'), RANDOM_CHARS).value);
  }

  // ----- which ids there are, and how they compare -----

  /** The digits and the capitals without I, L, O and U. */
  predicate IsLetter(c: char) {
    ('0' <= c <= '9' || 'A' <= c <= 'Z') && c !in {'I', 'L', 'O', 'U'}
  }

  lemma {:induction false} AlphabetIs(c: char)
    ensures c in ALPHABET <==> IsLetter(c)
  {
    assert ALPHABET == "0123456789" + "ABCDEFGH" + "JK" + "MN" + "PQRST" + "VWXYZ";
    assert c in "0123456789" <==> '0' <= c <= '9';
    assert c in "ABCDEFGH" <==> 'A' <= c <= 'H';
    assert c in "JK" <==> 'J' <= c <= 'K';
    assert c in "MN" <==> 'M' <= c <= 'N';
    assert c in "PQRST" <==> 'P' <= c <= 'T';
    assert c in "VWXYZ" <==> 'V' <= c <= 'Z';
  }

  /** An id is made exactly from ten bytes and a time of up to fifty bits. */
  lemma {:induction false} IdIff(milliseconds: int, entropy: seq<byte>)
    ensures NewEventId(milliseconds, entropy).Some?
      <==> |entropy| == 10 && 0 <= milliseconds < 0x4_0000_0000_0000
  {
    Unfold32();
    assert Pow(32, 10) == 0x4_0000_0000_0000;
    if |entropy| == 10 {
      TenBytesFit(entropy);
    }
  }

  /** Byte strings compare at their first difference. */
  predicate BytesLess(a: seq<byte>, b: seq<byte>)
    requires |a| == |b|
  {
    exists k | 0 <= k < |a| :: a[..k] == b[..k] && a[k] < b[k]
  }

  lemma {:induction false} OneIsLess(a: seq<byte>, b: seq<byte>)
    requires |a| == |b| && a != b
    ensures BytesLess(a, b) || BytesLess(b, a)
    decreases |a|
  {
    var last := |a| - 1;
    if a[..last] == b[..last] {
      assert a == a[..last] + [a[last]] && b == b[..last] + [b[last]];
    } else {
      OneIsLess(a[..last], b[..last]);
      if BytesLess(a[..last], b[..last]) {
        LessBeyond(a, b);
      } else {
        LessBeyond(b, a);
      }
    }
  }

  lemma {:induction false} LessBeyond(a: seq<byte>, b: seq<byte>)
    requires |a| == |b| > 0 && BytesLess(a[..|a| - 1], b[..|b| - 1])
    ensures BytesLess(a, b)
  {
    var a', b' := a[..|a| - 1], b[..|b| - 1];
    var k :| 0 <= k < |a'| && a'[..k] == b'[..k] && a'[k] < b'[k];
    assert a[..k] == a'[..k] && b[..k] == b'[..k];
  }

  lemma {:induction false} BigEndianIncreases(a: seq<byte>, b: seq<byte>)
    requires |a| == |b| && BytesLess(a, b)
    ensures BigEndian(a) < BigEndian(b)
    decreases |a|
  {
    var last := |a| - 1;
    var k :| 0 <= k < |a| && a[..k] == b[..k] && a[k] < b[k];
    if k < last {
      var a', b' := a[..last], b[..last];
      assert a'[..k] == a[..k] && b'[..k] == b[..k] && a'[k] < b'[k];
      BigEndianIncreases(a', b');
    }
  }

  lemma {:induction false} IdIs(milliseconds: int, entropy: seq<byte>) returns (time: string, noise: string)
    requires NewEventId(milliseconds, entropy).Some?
    ensures Fits(BigEndian(entropy), RANDOM_CHARS)
    ensures Some(time) == Encoded(milliseconds, TIMESTAMP_CHARS)
    ensures Some(noise) == Encoded(BigEndian(entropy), RANDOM_CHARS)
    ensures NewEventId(milliseconds, entropy).value == time + noise
  {
    time := Encoded(milliseconds, TIMESTAMP_CHARS).value;
    noise := Encoded(BigEndian(entropy), RANDOM_CHARS).value;
  }

  lemma {:induction false} EarlierNoiseIsLess(milliseconds: int, a: seq<byte>, b: seq<byte>)
    requires NewEventId(milliseconds, a).Some? && NewEventId(milliseconds, b).Some?
    requires |a| == |b| && BytesLess(a, b)
    ensures Less(NewEventId(milliseconds, a).value, NewEventId(milliseconds, b).value)
  {
    var time, noise := IdIs(milliseconds, a);
    var time', noise' := IdIs(milliseconds, b);
    BigEndianIncreases(a, b);
    EncodeIncreases(BigEndian(a), BigEndian(b), RANDOM_CHARS);
    CommonPrefix(time, noise, noise');
  }

  lemma {:induction false} LessAsymmetric(a: string, b: string)
    requires Less(a, b)
    ensures !Less(b, a) && a != b
    decreases |a|
  {
    if a != [] && a[0] == b[0] {
      LessAsymmetric(a[1..], b[1..]);
    }
  }

  /** Ids order as their times and, within a millisecond, as their entropies byte by byte. */
  lemma {:induction false} IdsOrder(t: int, a: seq<byte>, u: int, b: seq<byte>)
    requires NewEventId(t, a).Some? && NewEventId(u, b).Some?
    ensures |a| == |b| == 10
    ensures Less(NewEventId(t, a).value, NewEventId(u, b).value) <==> t < u || (t == u && BytesLess(a, b))
    ensures NewEventId(t, a) == NewEventId(u, b) <==> t == u && a == b
  {
    var x, y := NewEventId(t, a).value, NewEventId(u, b).value;
    if t < u {
      IdsSortByTime(t, u, a, b);
      LessAsymmetric(x, y);
    } else if u < t {
      IdsSortByTime(u, t, b, a);
      LessAsymmetric(y, x);
    } else {
      IdsOrderWithin(t, a, b);
    }
  }

  lemma {:induction false} IdsOrderWithin(t: int, a: seq<byte>, b: seq<byte>)
    requires |a| == |b| == 10 && NewEventId(t, a).Some? && NewEventId(t, b).Some?
    ensures Less(NewEventId(t, a).value, NewEventId(t, b).value) <==> BytesLess(a, b)
    ensures NewEventId(t, a) == NewEventId(t, b) <==> a == b
  {
    var x, y := NewEventId(t, a).value, NewEventId(t, b).value;
    LessIrreflexive(x);
    if a == b {
      assert !BytesLess(a, b);
    } else {
      OneIsLess(a, b);
      if BytesLess(a, b) {
        EarlierNoiseIsLess(t, a, b);
        LessAsymmetric(x, y);
      } else {
        EarlierNoiseIsLess(t, b, a);
        LessAsymmetric(y, x);
      }
    }
  }

  // ----- reading any id -----

  /** An id is refused exactly when it has not 26 characters or one of its first ten is,
      in upper case, outside the alphabet. */
  lemma {:induction false} RefusedIff(id: string)
    ensures Timestamp(id).None? <==>
      |id| != 26 || exists k, j | 0 <= k < 10 && 0 <= j < |UpperChar(id[k])| :: !IsLetter(UpperChar(id[k])[j])
  {
    if |id| == 26 {
      var time := id[..TIMESTAMP_CHARS];
      ParsesIff(Upper(time));
      UpperHolds(time);
      assert forall k | 0 <= k < 10 :: time[k] == id[k];
    }
  }

  predicate AllLetters(s: string) {
    forall k | 0 <= k < |s| :: IsLetter(s[k])
  }

  lemma {:induction false} ParsesIff(s: string)
    ensures Parse(ALPHABET, s).Some? <==> AllLetters(s)
    decreases |s|
  {
    if s != [] {
      var last := s[|s| - 1];
      ParsesIff(s[..|s| - 1]);
      BothHold(s[..|s| - 1], [last]);
      assert s == s[..|s| - 1] + [last];
      FoundIff(last);
    }
  }

  lemma {:induction false} FoundIff(c: char)
    ensures Find(ALPHABET, c).Some? <==> IsLetter(c)
  {
    AlphabetIs(c);
    var found := Find(ALPHABET, c);
  }

  lemma {:induction false} UpperHolds(s: string)
    ensures AllLetters(Upper(s)) <==> forall k | 0 <= k < |s| :: AllLetters(UpperChar(s[k]))
    decreases |s|
  {
    if s != [] {
      UpperHolds(s[..|s| - 1]);
      BothHold(Upper(s[..|s| - 1]), UpperChar(s[|s| - 1]));
    }
  }

  lemma {:induction false} BothHold(a: string, b: string)
    ensures AllLetters(a + b) <==> AllLetters(a) && AllLetters(b)
  {
    assert forall k | 0 <= k < |a| :: (a + b)[k] == a[k];
    assert forall k | 0 <= k < |b| :: (a + b)[|a| + k] == b[k];
  }

  function LowerChar(c: char): char {
    if 'A' <= c <= 'Z' then (c as int + 32) as char else c
  }

  function Lower(s: string): (r: string)
    ensures |r| == |s|
  {
    seq(|s|, k requires 0 <= k < |s| => LowerChar(s[k]))
  }

  lemma {:induction false} LetterOfLower(c: char)
    requires IsLetter(c)
    ensures UpperChar(LowerChar(c)) == [c] && UpperChar(c) == [c]
  {
  }

  lemma {:induction false} UpperOfLast(s: string, c: char)
    ensures Upper(s + [c]) == Upper(s) + UpperChar(c)
  {
    assert (s + [c])[..|s|] == s;
  }

  lemma {:induction false} LowerOfLast(s: string, c: char)
    ensures Lower(s + [c]) == Lower(s) + [LowerChar(c)]
  {
  }

  lemma {:induction false} UpperOfLower(s: string)
    requires AllLetters(s)
    ensures Upper(Lower(s)) == s && Upper(s) == s
    decreases |s|
  {
    if s != [] {
      var rest, c := s[..|s| - 1], s[|s| - 1];
      assert s == rest + [c];
      BothHold(rest, [c]);
      UpperOfLower(rest);
      LetterOfLower(c);
      LowerOfLast(rest, c);
      UpperOfLast(Lower(rest), LowerChar(c));
      UpperOfLast(rest, c);
    }
  }

  /** An id in lower case holds the same time. */
  lemma {:induction false} CaseIrrelevant(id: string)
    requires AllLetters(id)
    ensures Timestamp(Lower(id)) == Timestamp(id)
  {
    if |id| == ULID_LENGTH {
      var time := id[..TIMESTAMP_CHARS];
      assert AllLetters(time) by {
        assert id == time + id[TIMESTAMP_CHARS..];
        BothHold(time, id[TIMESTAMP_CHARS..]);
      }
      UpperOfLower(time);
      assert Lower(id)[..TIMESTAMP_CHARS] == Lower(time);
    }
  }

  const SMALL := "abcdefghijklmnopqrstuvwxyz"
  const CAPITAL := "ABCDEFGHIJKLMNOPQRSTUVWXYZ"

  /** The small letters become the capitals, long s, sharp s and three ligatures the
      capitals they are made of. */
  lemma {:induction false} UpperIs()
    ensures forall k | 0 <= k < 26 :: UpperChar(SMALL[k]) == [CAPITAL[k]]
    ensures UpperChar('\U{017F}') == "S" && UpperChar('\U{00DF}') == "SS" && UpperChar('\U{FB00}') == "FF"
    ensures UpperChar('\U{FB05}') == UpperChar('\U{FB06}') == "ST"
  {
  }
}
