/** State mileposts and corridor measures: `CorridorConfig` in `core/lrs.py`. */
module Mileposts {
  import opened Wrappers
  import opened Floats

  datatype Segment = Segment(state: string, milepostMin: real, milepostMax: real, offset: real) {

    function Length(): real {
      milepostMax - milepostMin
    }

    function End(): real {
      offset + Length()
    }

    predicate Holds(measure: real) {
      offset <= measure <= End()
    }

    predicate Posts(milepost: real) {
      milepostMin <= milepost <= milepostMax
    }
  }

  function UpperChar(c: char): char {
    if 'a' <= c <= 'z' then c - 'a' + 'A' else c
  }

  /** Upper case, for the letters state codes are made of. */
  function Upper(s: string): string {
    seq(|s|, k requires 0 <= k < |s| => UpperChar(s[k]))
  }

  function TotalMiles(segments: seq<Segment>): real {
    if segments == [] then 0.0 else TotalMiles(segments[..|segments| - 1]) + segments[|segments| - 1].Length()
  }

  /** The first segment of that state decides; None for a milepost it does not have. */
  function MeasureFor(segments: seq<Segment>, state: string, milepost: real): Option<real> {
    if segments == [] then None
    else if segments[0].state != Upper(state) then MeasureFor(segments[1..], state, milepost)
    else if milepost < segments[0].milepostMin || milepost > segments[0].milepostMax then None
    else Some(segments[0].offset + (milepost - segments[0].milepostMin))
  }

  /** The first segment that holds the measure. */
  function MilepostFor(segments: seq<Segment>, measure: real): Option<(string, real)> {
    if segments == [] then None
    else if segments[0].Holds(measure)
    then Some((segments[0].state, segments[0].milepostMin + (measure - segments[0].offset)))
    else MilepostFor(segments[1..], measure)
  }

  function StatesBetween(segments: seq<Segment>, lo: real, hi: real): seq<string> {
    if segments == [] then []
    else (if hi >= segments[0].offset && lo <= segments[0].End() then [segments[0].state] else [])
         + StatesBetween(segments[1..], lo, hi)
  }

  function StatesIn(segments: seq<Segment>, begin: real, end: real): seq<string> {
    StatesBetween(segments, MinReal(begin, end), MaxReal(begin, end))
  }

  // ----- configurations -----

  /** One segment a state, under its upper-case code. */
  predicate Named(segments: seq<Segment>) {
    && (forall k | 0 <= k < |segments| :: Upper(segments[k].state) == segments[k].state)
    && (forall i, j | 0 <= i < j < |segments| :: segments[i].state != segments[j].state)
  }

  /** Every segment has a length and begins where the one before it ends. */
  predicate Chained(segments: seq<Segment>) {
    && (forall k | 0 <= k < |segments| :: segments[k].Length() > 0.0)
    && (forall k | 0 < k < |segments| :: segments[k].offset == segments[k - 1].End())
  }

  // ----- the searches -----

  predicate FirstHolding(segments: seq<Segment>, measure: real, k: nat) {
    k < |segments| && segments[k].Holds(measure) && forall j | 0 <= j < k :: !segments[j].Holds(measure)
  }

  lemma {:induction false} FoundFirst(segments: seq<Segment>, measure: real, k: nat)
    requires FirstHolding(segments, measure, k)
    ensures MilepostFor(segments, measure)
         == Some((segments[k].state, segments[k].milepostMin + (measure - segments[k].offset)))
    decreases k
  {
    if k > 0 {
      assert !segments[0].Holds(measure);
      assert forall j | 0 <= j < k - 1 :: segments[1..][j] == segments[j + 1];
      FoundFirst(segments[1..], measure, k - 1);
    }
  }

  lemma {:induction false} FindFirst(segments: seq<Segment>, measure: real) returns (k: nat)
    ensures MilepostFor(segments, measure) == None ==> forall j | 0 <= j < |segments| :: !segments[j].Holds(measure)
    ensures MilepostFor(segments, measure) != None ==> FirstHolding(segments, measure, k)
    decreases |segments|
  {
    k := 0;
    if segments != [] && !segments[0].Holds(measure) {
      var rest := segments[1..];
      var j := FindFirst(rest, measure);
      k := j + 1;
      assert forall i | 0 < i < |segments| :: segments[i] == rest[i - 1];
    }
  }

  lemma {:induction false} NamedMeasure(segments: seq<Segment>, k: nat, state: string, milepost: real)
    requires Named(segments) && k < |segments| && Upper(state) == segments[k].state
    ensures MeasureFor(segments, state, milepost)
         == if segments[k].Posts(milepost)
            then Some(segments[k].offset + (milepost - segments[k].milepostMin))
            else None
    decreases k
  {
    if k > 0 {
      assert segments[0].state != segments[k].state;
      NamedMeasure(segments[1..], k - 1, state, milepost);
    }
  }

  // ----- there and back -----

  /** Whatever reference a measure is rendered in leads back to that measure. */
  lemma {:induction false} MeasureRoundTrip(segments: seq<Segment>, measure: real)
    requires Named(segments) && MilepostFor(segments, measure) != None
    ensures var (state, milepost) := MilepostFor(segments, measure).value;
            MeasureFor(segments, state, milepost) == Some(measure)
  {
    var k := FindFirst(segments, measure);
    FoundFirst(segments, measure, k);
    NamedMeasure(segments, k, segments[k].state, segments[k].milepostMin + (measure - segments[k].offset));
  }

  lemma {:induction false} ChainAscends(segments: seq<Segment>, i: nat, j: nat)
    requires Chained(segments) && i < j < |segments|
    ensures segments[i].offset < segments[i].End() <= segments[j].offset
    ensures j > i + 1 ==> segments[i].End() < segments[j].offset
    decreases j
  {
    assert segments[i].Length() > 0.0;
    assert segments[j].offset == segments[j - 1].End();
    if i < j - 1 {
      ChainAscends(segments, i, j - 1);
      assert segments[j - 1].Length() > 0.0;
    }
  }

  /** A state's milepost comes back as itself, whatever the case of its code, exactly when
      no earlier segment holds the place; otherwise the first that does renders it. */
  lemma {:induction false} MilepostRoundTripIff(segments: seq<Segment>, k: nat, state: string, milepost: real)
    requires Named(segments)
    requires k < |segments| && Upper(state) == segments[k].state && segments[k].Posts(milepost)
    ensures var measure := segments[k].offset + (milepost - segments[k].milepostMin);
            && MeasureFor(segments, state, milepost) == Some(measure)
            && (MilepostFor(segments, measure) == Some((segments[k].state, milepost)) <==>
                  forall j | 0 <= j < k :: !segments[j].Holds(measure))
  {
    NamedMeasure(segments, k, state, milepost);
    var measure := segments[k].offset + (milepost - segments[k].milepostMin);
    assert segments[k].Holds(measure);
    var first := FindFirst(segments, measure);
    FoundFirst(segments, measure, first);
    assert first < k ==> segments[first].state != segments[k].state;
  }

  /** On a chained corridor that leaves out the line with the state before only: that place
      is rendered in the earlier state's reference. */
  lemma {:induction false} ChainedRoundTripIff(segments: seq<Segment>, k: nat, state: string, milepost: real)
    requires Named(segments) && Chained(segments)
    requires k < |segments| && Upper(state) == segments[k].state && segments[k].Posts(milepost)
    ensures MeasureFor(segments, state, milepost) != None
    ensures var back := MilepostFor(segments, MeasureFor(segments, state, milepost).value);
            && (back == Some((segments[k].state, milepost)) <==> k == 0 || milepost > segments[k].milepostMin)
            && (k > 0 && milepost == segments[k].milepostMin ==>
                  back == Some((segments[k - 1].state, segments[k - 1].milepostMax)))
  {
    MilepostRoundTripIff(segments, k, state, milepost);
    var measure := segments[k].offset + (milepost - segments[k].milepostMin);
    forall j | 0 <= j < k - 1
      ensures !segments[j].Holds(measure)
    {
      ChainAscends(segments, j, k);
    }
    if k > 0 {
      assert segments[k].offset == segments[k - 1].End() && segments[k - 1].Length() > 0.0;
      assert segments[k - 1].Holds(measure) <==> milepost == segments[k].milepostMin;
      if milepost == segments[k].milepostMin {
        FoundFirst(segments, measure, k - 1);
      }
    }
  }

  /** Both mileposts at a state line name the same measure exactly when the second
      segment begins where the first one ends. */
  lemma {:induction false} StateLineIff(segments: seq<Segment>, k: nat)
    requires Named(segments) && 0 < k < |segments|
    requires segments[k - 1].Length() >= 0.0 && segments[k].Length() >= 0.0
    ensures LastOf(segments, segments[k - 1]) == FirstOf(segments, segments[k])
       <==> segments[k].offset == segments[k - 1].End()
  {
    EndMeasures(segments, k - 1);
    EndMeasures(segments, k);
  }

  function FirstOf(segments: seq<Segment>, s: Segment): Option<real> {
    MeasureFor(segments, s.state, s.milepostMin)
  }

  function LastOf(segments: seq<Segment>, s: Segment): Option<real> {
    MeasureFor(segments, s.state, s.milepostMax)
  }

  lemma {:induction false} EndMeasures(segments: seq<Segment>, k: nat)
    requires Named(segments) && k < |segments| && segments[k].Length() >= 0.0
    ensures FirstOf(segments, segments[k]) == Some(segments[k].offset)
    ensures LastOf(segments, segments[k]) == Some(segments[k].End())
  {
    NamedMeasure(segments, k, segments[k].state, segments[k].milepostMin);
    NamedMeasure(segments, k, segments[k].state, segments[k].milepostMax);
  }

  /** A chained corridor has a reference for every measure from its beginning to its end
      and for no other, and its length is the distance between the two. */
  lemma {:induction false} CoversIff(segments: seq<Segment>, measure: real)
    requires Chained(segments) && segments != []
    ensures MilepostFor(segments, measure) != None <==>
      segments[0].offset <= measure <= segments[|segments| - 1].End()
    ensures TotalMiles(segments) == segments[|segments| - 1].End() - segments[0].offset
  {
    var last := |segments| - 1;
    ChainLength(segments);
    var k := FindFirst(segments, measure);
    if MilepostFor(segments, measure) != None {
      if k > 0 {
        ChainAscends(segments, 0, k);
      }
      if k < last {
        ChainAscends(segments, k, last);
        assert segments[last].Length() > 0.0;
      }
    } else if segments[0].offset <= measure {
      BeyondAll(segments, measure, last);
    }
  }

  lemma {:induction false} BeyondAll(segments: seq<Segment>, measure: real, k: nat)
    requires Chained(segments) && k < |segments| && segments[0].offset <= measure
    requires forall j | 0 <= j < |segments| :: !segments[j].Holds(measure)
    ensures measure > segments[k].End()
    decreases k
  {
    assert !segments[k].Holds(measure);
    if k > 0 {
      BeyondAll(segments, measure, k - 1);
      assert segments[k].offset == segments[k - 1].End();
    }
  }

  lemma {:induction false} ChainLength(segments: seq<Segment>)
    requires Chained(segments) && segments != []
    ensures TotalMiles(segments) == segments[|segments| - 1].End() - segments[0].offset
    decreases |segments|
  {
    var last := |segments| - 1;
    if last > 0 {
      ChainLength(segments[..last]);
      assert segments[last].offset == segments[last - 1].End();
    } else {
      assert segments[..0] == [];
    }
  }

  // ----- extents -----

  /** A state is listed exactly when it shares a place with the extent. */
  lemma {:induction false} StatesTouchedIff(segments: seq<Segment>, lo: real, hi: real, state: string)
    requires lo <= hi && forall k | 0 <= k < |segments| :: segments[k].Length() >= 0.0
    ensures state in StatesBetween(segments, lo, hi) <==>
      exists k, m: real | 0 <= k < |segments| && segments[k].Holds(m) :: segments[k].state == state && lo <= m <= hi
    decreases |segments|
  {
    if segments != [] {
      var rest := segments[1..];
      StatesTouchedIff(rest, lo, hi, state);
      var s := segments[0];
      if state in StatesBetween(segments, lo, hi) {
        if state in StatesBetween(rest, lo, hi) {
          var k: int, m: real :| 0 <= k < |rest| && rest[k].Holds(m) && rest[k].state == state && lo <= m <= hi;
          assert segments[k + 1].Holds(m);
        } else {
          assert s.Length() >= 0.0;
          assert segments[0].Holds(MaxReal(s.offset, lo));
        }
      }
      if k: int, m: real :| 0 <= k < |segments| && segments[k].Holds(m) && segments[k].state == state && lo <= m <= hi {
        if k > 0 {
          assert rest[k - 1].Holds(m);
        }
      }
    }
  }

  function Names(segments: seq<Segment>): seq<string> {
    if segments == [] then [] else [segments[0].state] + Names(segments[1..])
  }

  predicate Touched(s: Segment, lo: real, hi: real) {
    hi >= s.offset && lo <= s.End()
  }

  lemma {:induction false} FirstOut(segments: seq<Segment>, lo: real, hi: real, i: nat, j: nat)
    requires segments != [] && !Touched(segments[0], lo, hi) && i <= j < |segments|
    requires StatesBetween(segments[1..], lo, hi) == Names(segments[1..][i..j])
    ensures StatesBetween(segments, lo, hi) == Names(segments[i + 1..j + 1])
  {
    SliceOfRest(segments, i, j);
  }

  lemma {:induction false} FirstIn(segments: seq<Segment>, lo: real, hi: real, j: nat)
    requires segments != [] && Touched(segments[0], lo, hi) && j < |segments|
    requires StatesBetween(segments[1..], lo, hi) == Names(segments[1..][0..j])
    ensures StatesBetween(segments, lo, hi) == Names(segments[0..j + 1])
  {
    NamesFirst(segments, j);
  }

  /** The states of an extent on a chained corridor are consecutive, in corridor order. */
  lemma {:induction false} StatesConsecutive(segments: seq<Segment>, lo: real, hi: real) returns (a: nat, b: nat)
    requires Chained(segments) && lo <= hi
    ensures a <= b <= |segments| && StatesBetween(segments, lo, hi) == Names(segments[a..b])
    ensures segments != [] && hi >= segments[0].offset && lo <= segments[0].End() ==> a == 0
    decreases |segments|
  {
    a, b := 0, 0;
    if segments != [] {
      var rest := segments[1..];
      ChainRest(segments);
      var i, j := StatesConsecutive(rest, lo, hi);
      if !Touched(segments[0], lo, hi) {
        FirstOut(segments, lo, hi, i, j);
        a, b := i + 1, j + 1;
      } else if hi < segments[0].End() {
        NoneReached(rest, lo, hi);
        FirstIn(segments, lo, hi, 0);
        b := 1;
      } else {
        assert rest != [] ==> rest[0].offset == segments[0].End() && rest[0].Length() > 0.0;
        FirstIn(segments, lo, hi, j);
        b := j + 1;
      }
    }
  }

  lemma {:induction false} SliceOfRest<T>(s: seq<T>, i: nat, j: nat)
    requires s != [] && i <= j < |s|
    ensures s[i + 1..j + 1] == s[1..][i..j]
  {
    forall k | 0 <= k < j - i
      ensures s[i + 1..j + 1][k] == s[1..][i..j][k]
    {
      assert s[i + 1..j + 1][k] == s[i + 1 + k];
    }
  }

  lemma {:induction false} NamesFirst(segments: seq<Segment>, n: nat)
    requires n < |segments|
    ensures Names(segments[0..n + 1]) == [segments[0].state] + Names(segments[1..][0..n])
  {
    assert segments[0..n + 1][1..] == segments[1..][0..n];
  }

  lemma {:induction false} ChainRest(segments: seq<Segment>)
    requires Chained(segments) && segments != []
    ensures Chained(segments[1..])
    ensures forall k | 0 <= k < |segments| - 1 :: segments[1..][k].offset >= segments[0].End()
  {
    var rest := segments[1..];
    assert forall k | 0 < k < |segments| :: segments[k] == rest[k - 1];
    forall k | 0 <= k < |rest|
      ensures rest[k].Length() > 0.0 && rest[k].offset >= segments[0].End()
    {
      assert rest[k] == segments[k + 1];
      ChainAscends(segments, 0, k + 1);
    }
    forall k | 0 < k < |rest|
      ensures rest[k].offset == rest[k - 1].End()
    {
      assert rest[k] == segments[k + 1] && rest[k - 1] == segments[k];
    }
  }

  lemma {:induction false} NoneReached(segments: seq<Segment>, lo: real, hi: real)
    requires forall k | 0 <= k < |segments| :: segments[k].offset > hi
    ensures StatesBetween(segments, lo, hi) == []
    decreases |segments|
  {
    if segments != [] {
      assert segments[0].offset > hi;
      NoneReached(segments[1..], lo, hi);
    }
  }

  /** The state a place is rendered in is among the states of every extent around it. */
  lemma {:induction false} PlaceInExtent(segments: seq<Segment>, begin: real, end: real, measure: real)
    requires forall k | 0 <= k < |segments| :: segments[k].Length() >= 0.0
    requires MinReal(begin, end) <= measure <= MaxReal(begin, end) && MilepostFor(segments, measure) != None
    ensures MilepostFor(segments, measure).value.0 in StatesIn(segments, begin, end)
  {
    var k := FindFirst(segments, measure);
    FoundFirst(segments, measure, k);
    StatesTouchedIff(segments, MinReal(begin, end), MaxReal(begin, end), segments[k].state);
  }

  // ----- spelling -----

  /** A state may be asked for in lower or in upper case. */
  lemma {:induction false} CaseIrrelevant(segments: seq<Segment>, state: string, milepost: real)
    ensures MeasureFor(segments, Upper(state), milepost) == MeasureFor(segments, state, milepost)
    decreases |segments|
  {
    assert Upper(Upper(state)) == Upper(state);
    if segments != [] {
      CaseIrrelevant(segments[1..], state, milepost);
    }
  }

  const SMALL := "abcdefghijklmnopqrstuvwxyz"
  const CAPITAL := "ABCDEFGHIJKLMNOPQRSTUVWXYZ"

  /** The small letters become the capitals, and nothing else changes. */
  lemma {:induction false} UpperIs(c: char)
    ensures forall k | 0 <= k < 26 :: UpperChar(SMALL[k]) == CAPITAL[k]
    ensures c !in SMALL ==> UpperChar(c) == c
  {
    if 'a' <= c <= 'z' {
      assert SMALL[c as int - 97] == c;
    }
  }
}
