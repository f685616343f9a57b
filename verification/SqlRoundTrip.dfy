/** Splitting is stable: the statements `split_statements` (`core/migrations.py`)
    returns can be printed and split again, together or one by one. */
module SqlRoundTrip {
  import opened Wrappers
  import opened SqlSplitter
  import opened SqlTokens

  // ----- the scanner does not look past a neutral character -----

  /** Characters that take part in no comment marker, quote or tag. */
  predicate Neutral(c: char) {
    c !in {'-', '/', '*', '\'', '$'} && !NameChar(c)
  }

  predicate NeutralStart(s: string) {
    s == "" || Neutral(s[0])
  }

  lemma {:induction false} SpacesAreNeutral(c: char)
    requires IsSpace(c)
    ensures Neutral(c) && c != ';'
  {
  }

  lemma {:induction false} NameLengthLocal(a: string, b: string)
    requires NeutralStart(b)
    ensures NameLength(a + b) == NameLength(a)
    decreases |a|
  {
    if a == "" {
      assert a + b == b;
    } else {
      Parts(a, b);
      assert (a + b)[1..] == a[1..] + b;
      NameLengthLocal(a[1..], b);
    }
  }

  lemma {:induction false} TagLocal(a: string, b: string)
    requires a != "" && NeutralStart(b)
    ensures DollarTagAt(a + b) == DollarTagAt(a)
  {
    Parts(a, b);
    assert (a + b)[1..] == a[1..] + b;
    NameLengthLocal(a[1..], b);
    var n := NameLength(a[1..]);
    if n + 1 < |a| {
      assert (a + b)[n + 1] == a[n + 1] && (a + b)[1] == a[1];
      if n + 2 <= |a| {
        assert (a + b)[..n + 2] == a[..n + 2];
      }
    } else if n + 1 < |a + b| {
      assert (a + b)[n + 1] == b[0];
    }
  }

  lemma {:induction false} MarkerLocal(a: string, b: string, x: char, y: char)
    requires a != "" && NeutralStart(b) && !Neutral(y)
    ensures StartsWith(a + b, x, y) == StartsWith(a, x, y)
  {
    Parts(a, b);
    assert |a| == 1 && b != "" ==> (a + b)[1] == b[0];
  }

  lemma {:induction false} PrefixLocal(tag: string, a: string, b: string)
    requires IsTag(tag) && NeutralStart(b)
    ensures tag <= a + b <==> tag <= a
  {
    if |tag| <= |a| {
      assert (a + b)[..|tag|] == a[..|tag|];
    } else if |tag| <= |a + b| {
      assert (a + b)[..|tag|][|a|] == b[0];
      assert tag[|a|] == '$' || NameChar(tag[|a|]);
    }
  }

  lemma {:induction false} TurnLocal(m: Mode, a: string, b: string)
    requires ValidMode(m) && a != "" && NeutralStart(b)
    ensures TurnOf(m, a + b) == TurnOf(m, a)
  {
    Parts(a, b);
    MarkerLocal(a, b, '-', '-');
    MarkerLocal(a, b, '/', '*');
    MarkerLocal(a, b, '*', '/');
    MarkerLocal(a, b, '\'', '\'');
    TagLocal(a, b);
    if m.DollarBody? {
      PrefixLocal(m.tag, a, b);
    }
  }

  // ----- scanning in two parts -----

  /** The mode after the whole of `s`. */
  function Run(m: Mode, s: string): (r: Mode)
    requires ValidMode(m)
    ensures ValidMode(r)
    decreases |s|
  {
    if s == "" then m else var t := TurnOf(m, s); Run(t.mode, s[t.taken..])
  }

  /** The last chunk of `a` runs on into the first of `b`. */
  function Continue(a: seq<string>, b: seq<string>): (r: seq<string>)
    requires a != [] && b != []
    ensures r != []
  {
    a[..|a| - 1] + Glue(a[|a| - 1], b)
  }

  lemma {:induction false} ContinueGlued(text: string, a: seq<string>, b: seq<string>)
    requires a != [] && b != []
    ensures Continue(Glue(text, a), b) == Glue(text, Continue(a, b))
  {
    if |a| == 1 {
      GlueTwice(text, a[0], b);
      assert Glue(text, a)[..0] == [] && a[..0] == [];
      assert Continue(a, b) == Glue(a[0], b);
    } else {
      assert Glue(text, a)[..|a| - 1] == Glue(text, a[..|a| - 1]);
    }
  }

  lemma {:induction false} ContinueCut(a: seq<string>, b: seq<string>)
    requires a != [] && b != []
    ensures Continue([""] + a, b) == [""] + Continue(a, b)
  {
    assert ([""] + a)[..|a|] == [""] + a[..|a| - 1];
  }

  lemma {:induction false} ContinueNothing(b: seq<string>)
    requires b != []
    ensures Continue([""], b) == b
  {
    assert "" + b[0] == b[0];
  }

  lemma {:induction false} TwoPartsTurn(m: Mode, head: string, tail: string, b: string, m': Mode)
    requires ValidMode(m) && ValidMode(m') && head != "" && NeutralStart(b)
    requires TurnOf(m, head + tail) == Turn(|head|, m', false)
    requires Chunks(m', tail + b) == Continue(Chunks(m', tail), Chunks(Run(m', tail), b))
    ensures Chunks(m, (head + tail) + b) == Continue(Chunks(m, head + tail), Chunks(Run(m', tail), b))
  {
    TurnLocal(m, head + tail, b);
    Assoc(head, tail, b);
    OneTurn(m, head, tail + b, m');
    OneTurn(m, head, tail, m');
    ContinueGlued(head, Chunks(m', tail), Chunks(Run(m', tail), b));
  }

  lemma {:induction false} CutTurn(rest: string)
    ensures Chunks(Plain, ";" + rest) == [""] + Chunks(Plain, rest)
  {
    Parts(";", rest);
  }

  lemma {:induction false} TwoPartsCut(tail: string, b: string)
    requires Chunks(Plain, tail + b) == Continue(Chunks(Plain, tail), Chunks(Run(Plain, tail), b))
    ensures Chunks(Plain, (";" + tail) + b) == Continue(Chunks(Plain, ";" + tail), Chunks(Run(Plain, tail), b))
  {
    Assoc(";", tail, b);
    CutTurn(tail + b);
    CutTurn(tail);
    ContinueCut(Chunks(Plain, tail), Chunks(Run(Plain, tail), b));
  }

  lemma {:induction false} ScanTwoParts(m: Mode, a: string, b: string)
    requires ValidMode(m) && NeutralStart(b)
    ensures Chunks(m, a + b) == Continue(Chunks(m, a), Chunks(Run(m, a), b))
    ensures Run(m, a + b) == Run(Run(m, a), b)
    decreases |a|
  {
    if a == "" {
      assert a + b == b;
      ContinueNothing(Chunks(m, b));
    } else {
      TurnLocal(m, a, b);
      var t := TurnOf(m, a);
      var head, tail := a[..t.taken], a[t.taken..];
      Head(a, t.taken);
      assert (a + b)[t.taken..] == tail + b;
      ScanTwoParts(t.mode, tail, b);
      if t.cut {
        assert head == ";";
        TwoPartsCut(tail, b);
      } else {
        TwoPartsTurn(m, head, tail, b, t.mode);
      }
    }
  }

  // ----- white space -----

  lemma {:induction false} SpaceTurn(c: char, s: string)
    requires IsSpace(c)
    ensures TurnOf(Plain, [c] + s) == Turn(1, Plain, false)
  {
    SpacesAreNeutral(c);
    Parts([c], s);
  }

  /** Leading white space is plain text. */
  lemma {:induction false} ScanSpaceFirst(w: string, s: string)
    requires AllSpace(w)
    ensures Chunks(Plain, w + s) == Glue(w, Chunks(Plain, s)) && Run(Plain, w + s) == Run(Plain, s)
    decreases |w|
  {
    if w == "" {
      assert w + s == s;
      var chunks := Chunks(Plain, s);
      assert "" + chunks[0] == chunks[0];
    } else {
      assert w + s == [w[0]] + (w[1..] + s);
      SpaceTurn(w[0], w[1..] + s);
      Parts([w[0]], w[1..] + s);
      ScanSpaceFirst(w[1..], s);
      GlueTwice([w[0]], w[1..], Chunks(Plain, s));
      assert [w[0]] + w[1..] == w;
    }
  }

  /** White space never leaves a literal or a block comment. */
  lemma {:induction false} SpaceStays(m: Mode, w: string)
    requires ValidMode(m) && AllSpace(w)
    ensures !m.Plain? && !m.LineComment? ==> Run(m, w) == m
    decreases |w|
  {
    if w != "" && !m.Plain? && !m.LineComment? {
      SpacesAreNeutral(w[0]);
      SpaceTurnInside(m, w);
      SpaceStays(m, w[1..]);
    }
  }

  lemma {:induction false} SpaceTurnInside(m: Mode, w: string)
    requires ValidMode(m) && w != "" && Neutral(w[0]) && !m.Plain? && !m.LineComment?
    ensures TurnOf(m, w) == Turn(1, m, false)
  {
    assert m.DollarBody? ==> m.tag[0] == '$';
  }

  lemma {:induction false} OneInFront(c: char, before: string, t: string, after: string, s: string)
    requires s != "" && s[0] == c && s[1..] == before + t + after
    ensures s == ([c] + before) + t + after
  {
    assert s == [c] + s[1..];
  }

  lemma {:induction false} OneBehind(before: string, t: string, after: string, c: char, s: string)
    requires s != "" && s[|s| - 1] == c && s[..|s| - 1] == before + t + after
    ensures s == before + t + (after + [c])
  {
    assert s == s[..|s| - 1] + [c];
  }

  lemma {:induction false} TrimmedEdges(s: string)
    requires Trim(s) != ""
    ensures !IsSpace(Trim(s)[0]) && !IsSpace(Trim(s)[|Trim(s)| - 1])
    decreases |s|
  {
    if IsSpace(s[0]) {
      TrimmedEdges(s[1..]);
    } else if IsSpace(s[|s| - 1]) {
      TrimmedEdges(s[..|s| - 1]);
    }
  }

  lemma {:induction false} TrimSplits(s: string) returns (before: string, after: string)
    ensures s == before + Trim(s) + after && AllSpace(before) && AllSpace(after)
    decreases |s|
  {
    if s == "" {
      return "", "";
    }
    if IsSpace(s[0]) {
      before, after := TrimSplits(s[1..]);
      OneInFront(s[0], before, Trim(s), after, s);
      AllSpaceConcat([s[0]], before);
      before := [s[0]] + before;
    } else if IsSpace(s[|s| - 1]) {
      before, after := TrimSplits(s[..|s| - 1]);
      OneBehind(before, Trim(s), after, s[|s| - 1], s);
      AllSpaceConcat(after, [s[|s| - 1]]);
      after := after + [s[|s| - 1]];
    } else {
      before, after := "", "";
      assert s == "" + s + "";
    }
  }

  lemma {:induction false} TrimBefore(w: string, s: string)
    requires AllSpace(w)
    ensures Trim(w + s) == Trim(s)
    decreases |w|
  {
    if w == "" {
      assert w + s == s;
    } else {
      Parts(w, s);
      assert (w + s)[1..] == w[1..] + s;
      TrimBefore(w[1..], s);
    }
  }

  lemma {:induction false} TrimmedPlusNewline(s: string)
    requires s != "" && !IsSpace(s[0]) && !IsSpace(s[|s| - 1])
    ensures Trim(s) == s && Trim(s + "\n") == s
  {
    Parts(s, "\n");
    assert (s + "\n")[|s|] == '\n' && (s + "\n")[..|s|] == s;
  }

  // ----- the filter ignores white space at the ends -----

  lemma {:induction false} BlocksBefore(w: string, s: string)
    requires AllSpace(w)
    ensures StripBlocks(w + s) == w + StripBlocks(s)
    decreases |w|
  {
    if w == "" {
      assert w + s == s && "" + StripBlocks(s) == StripBlocks(s);
    } else {
      SpacesAreNeutral(w[0]);
      Parts(w, s);
      assert (w + s)[1..] == w[1..] + s;
      BlocksBefore(w[1..], s);
      Assoc([w[0]], w[1..], StripBlocks(s));
      assert [w[0]] + w[1..] == w;
    }
  }

  lemma {:induction false} LinesBefore(w: string, s: string)
    requires AllSpace(w)
    ensures StripLines(w + s) == w + StripLines(s)
    decreases |w|
  {
    if w == "" {
      assert w + s == s && "" + StripLines(s) == StripLines(s);
    } else {
      SpacesAreNeutral(w[0]);
      Parts(w, s);
      assert (w + s)[1..] == w[1..] + s;
      LinesBefore(w[1..], s);
      Assoc([w[0]], w[1..], StripLines(s));
      assert [w[0]] + w[1..] == w;
    }
  }

  lemma {:induction false} CloseAfter(s: string, w: string, from: nat)
    requires AllSpace(w) && from <= |s|
    ensures FindClose(s + w, from) == FindClose(s, from)
    decreases |s| - from
  {
    if from < |s| {
      assert (s + w)[from..] == s[from..] + w;
      assert w != "" ==> Neutral(w[0]) by {
        if w != "" {
          SpacesAreNeutral(w[0]);
        }
      }
      MarkerLocal(s[from..], w, '*', '/');
      CloseAfter(s, w, from + 1);
    } else {
      SpaceHasNoClose(s + w, |s|);
    }
  }

  lemma {:induction false} SpaceHasNoClose(s: string, from: nat)
    requires from <= |s| && AllSpace(s[from..])
    ensures FindClose(s, from) == None
    decreases |s| - from
  {
    if from + 2 <= |s| {
      SpacesAreNeutral(s[from..][0]);
      assert s[from + 1..] == s[from..][1..];
      SpaceHasNoClose(s, from + 1);
    }
  }

  lemma {:induction false} SpaceStartsNeutral(w: string)
    requires AllSpace(w)
    ensures NeutralStart(w)
  {
    if w != "" {
      SpacesAreNeutral(w[0]);
    }
  }

  lemma {:induction false} BlocksAfter(s: string, w: string)
    requires AllSpace(w)
    ensures StripBlocks(s + w) == StripBlocks(s) + w
    decreases |s|
  {
    if s == "" {
      assert s + w == w + "" && w + "" == w && "" + w == w;
      BlocksBefore(w, "");
    } else {
      SpaceStartsNeutral(w);
      Parts(s, w);
      MarkerLocal(s, w, '/', '*');
      if StartsWith(s, '/', '*') {
        CloseAfter(s, w, 2);
      }
      if StartsWith(s, '/', '*') && FindClose(s, 2).Some? {
        var k := FindClose(s, 2).value + 2;
        assert (s + w)[k..] == s[k..] + w;
        BlocksAfter(s[k..], w);
        Assoc(" ", StripBlocks(s[k..]), w);
      } else {
        assert (s + w)[1..] == s[1..] + w;
        BlocksAfter(s[1..], w);
        Assoc([s[0]], StripBlocks(s[1..]), w);
      }
    }
  }

  lemma {:induction false} LineLengthAfter(s: string, w: string)
    ensures LineLength(s) < |s| ==> LineLength(s + w) == LineLength(s)
    ensures LineLength(s) == |s| ==> LineLength(s + w) == |s| + LineLength(w)
    decreases |s|
  {
    if s == "" {
      assert s + w == w;
    } else {
      Parts(s, w);
      assert (s + w)[1..] == s[1..] + w;
      LineLengthAfter(s[1..], w);
    }
  }

  lemma {:induction false} LinesOfSpace(w: string)
    requires AllSpace(w)
    ensures StripLines(w) == w
  {
    LinesBefore(w, "");
    assert w + "" == w;
  }

  lemma {:induction false} AllSpaceConcat(a: string, b: string)
    ensures AllSpace(a + b) <==> AllSpace(a) && AllSpace(b)
  {
    if AllSpace(a + b) {
      assert forall k | 0 <= k < |a| :: (a + b)[k] == a[k];
      assert forall k | 0 <= k < |b| :: (a + b)[|a| + k] == b[k];
    }
  }

  /** What the line filter leaves after a comment of `s`. */
  function AfterLine(s: string): string
    requires StartsWith(s, '-', '-')
  {
    s[2 + LineLength(s[2..])..]
  }

  lemma {:induction false} AfterLineAfter(s: string, w: string)
    requires AllSpace(w) && StartsWith(s, '-', '-')
    ensures StartsWith(s + w, '-', '-')
    ensures if LineLength(s[2..]) < |s[2..]| then AfterLine(s + w) == AfterLine(s) + w
            else AfterLine(s) == "" && AllSpace(AfterLine(s + w))
  {
    Parts(s, w);
    assert (s + w)[2..] == s[2..] + w;
    LineLengthAfter(s[2..], w);
    var n := 2 + LineLength(s[2..]);
    if n < |s| {
      assert (s + w)[n..] == s[n..] + w;
    } else {
      assert AfterLine(s + w) == w[LineLength(w)..];
    }
  }

  lemma {:induction false} LinesAfter(s: string, w: string)
    requires AllSpace(w)
    ensures AllSpace(StripLines(s + w)) <==> AllSpace(StripLines(s))
    decreases |s|
  {
    if s == "" {
      assert s + w == w;
      LinesOfSpace(w);
    } else if StartsWith(s, '-', '-') {
      AfterLineAfter(s, w);
      AllSpaceConcat(" ", StripLines(AfterLine(s)));
      AllSpaceConcat(" ", StripLines(AfterLine(s + w)));
      if LineLength(s[2..]) < |s[2..]| {
        LinesAfter(AfterLine(s), w);
      } else {
        LinesOfSpace(AfterLine(s + w));
      }
    } else {
      SpaceStartsNeutral(w);
      Parts(s, w);
      MarkerLocal(s, w, '-', '-');
      assert (s + w)[1..] == s[1..] + w;
      LinesAfter(s[1..], w);
      AllSpaceConcat([s[0]], StripLines(s[1..] + w));
      AllSpaceConcat([s[0]], StripLines(s[1..]));
    }
  }

  lemma {:induction false} FilterIgnoresSpace(before: string, s: string, after: string)
    requires AllSpace(before) && AllSpace(after)
    ensures IsOnlyComments(before + s + after) == IsOnlyComments(s)
  {
    BlocksAfter(before + s, after);
    BlocksBefore(before, s);
    LinesAfter(before + StripBlocks(s), after);
    LinesBefore(before, StripBlocks(s));
    AllSpaceConcat(before, StripLines(StripBlocks(s)));
  }

  // ----- returned statements -----

  /** A statement that is one chunk by itself, trimmed and not a comment. Unless it is
      the last of its script, no literal or block comment in it is left open. */
  predicate Statement(s: string, last: bool) {
    && s != "" && !IsSpace(s[0]) && !IsSpace(s[|s| - 1])
    && !IsOnlyComments(s) && Chunks(Plain, s) == [s]
    && (last || Run(Plain, s) in {Plain, LineComment})
  }

  predicate Statements(ss: seq<string>) {
    forall k | 0 <= k < |ss| :: Statement(ss[k], k == |ss| - 1)
  }

  lemma {:induction false} OnlyCommentsEmpty()
    ensures IsOnlyComments("")
  {
  }

  lemma {:induction false} TrimmedNotEmpty(s: string)
    requires !IsOnlyComments(s)
    ensures Trim(s) != ""
  {
    if Trim(s) == "" {
      var before, after := TrimSplits(s);
      FilterIgnoresSpace(before, "", after);
      OnlyCommentsEmpty();
    }
  }

  lemma {:induction false} TrimmedChunkIsStatement(chunk: string, last: bool)
    requires Chunks(Plain, chunk) == [chunk] && (last || Run(Plain, chunk) == Plain)
    requires !IsOnlyComments(chunk)
    ensures Statement(Trim(chunk), last)
  {
    var before, after := TrimSplits(chunk);
    TrimmedNotEmpty(chunk);
    TrimmedEdges(chunk);
    var s := Trim(chunk);
    FilterIgnoresSpace(before, s, after);
    Assoc(before, s, after);
    ScanSpaceFirst(before, s + after);
    SpaceStartsNeutral(after);
    ScanTwoParts(Plain, s, after);
    OneChunk(s, Chunks(Plain, s), Chunks(Run(Plain, s), after), before);
    ChunksJoin(s);
    SpaceStays(Run(Plain, s), after);
  }

  lemma {:induction false} OneChunk(s: string, a: seq<string>, b: seq<string>, text: string)
    requires a != [] && b != [] && |Glue(text, Continue(a, b))| == 1
    ensures |a| == 1
  {
  }

  lemma {:induction false} ChunksJoin(s: string)
    ensures |Chunks(Plain, s)| == 1 ==> Chunks(Plain, s) == [s]
  {
    SingleChunk(Plain, s);
  }

  lemma {:induction false} SingleChunk(m: Mode, s: string)
    requires ValidMode(m)
    ensures |Chunks(m, s)| == 1 ==> Chunks(m, s) == [s]
    decreases |s|
  {
    if s != "" && !TurnOf(m, s).cut {
      var t := TurnOf(m, s);
      SingleChunk(t.mode, s[t.taken..]);
      Head(s, t.taken);
    }
  }

  /** Every chunk of a script scans to itself, and all but the last end in plain text. */
  lemma {:induction false} ChunksScanAlone(m: Mode, s: string)
    requires ValidMode(m)
    ensures var chunks := Chunks(m, s);
            && Chunks(m, chunks[0]) == [chunks[0]] && (|chunks| > 1 ==> Run(m, chunks[0]) == Plain)
            && (forall k | 0 < k < |chunks| ::
                  Chunks(Plain, chunks[k]) == [chunks[k]] && (k < |chunks| - 1 ==> Run(Plain, chunks[k]) == Plain))
    decreases |s|
  {
    if s != "" {
      var t := TurnOf(m, s);
      if t.cut {
        ChunksScanAlone(Plain, s[1..]);
      } else {
        ChunksScanAlone(t.mode, s[t.taken..]);
        FirstChunkTurn(m, s);
      }
    }
  }

  lemma {:induction false} FirstChunkTurn(m: Mode, s: string)
    requires ValidMode(m) && s != "" && !TurnOf(m, s).cut
    requires var t := TurnOf(m, s);
             var rest := Chunks(t.mode, s[t.taken..]);
             Chunks(t.mode, rest[0]) == [rest[0]] && (|rest| > 1 ==> Run(t.mode, rest[0]) == Plain)
    ensures var chunks := Chunks(m, s);
            Chunks(m, chunks[0]) == [chunks[0]] && (|chunks| > 1 ==> Run(m, chunks[0]) == Plain)
  {
    var t := TurnOf(m, s);
    var rest := Chunks(t.mode, s[t.taken..]);
    var chunk := Chunks(m, s)[0];
    var b := FirstChunkIsPrefix(t.mode, s[t.taken..]);
    assert s == chunk + b by {
      Head(s, t.taken);
      Assoc(s[..t.taken], rest[0], b);
    }
    TurnLocal(m, chunk, b);
    Parts(s[..t.taken], rest[0]);
  }

  lemma {:induction false} FirstChunkIsPrefix(m: Mode, s: string) returns (b: string)
    requires ValidMode(m)
    ensures s == Chunks(m, s)[0] + b && NeutralStart(b)
    decreases |s|
  {
    if s == "" {
      return "";
    }
    var t := TurnOf(m, s);
    if t.cut {
      assert s == "" + s;
      return s;
    }
    b := FirstChunkIsPrefix(t.mode, s[t.taken..]);
    Head(s, t.taken);
    Assoc(s[..t.taken], Chunks(t.mode, s[t.taken..])[0], b);
  }

  lemma {:induction false} StatementInFront(s: string, ss: seq<string>)
    requires Statement(s, ss == []) && Statements(ss)
    ensures Statements([s] + ss)
  {
    forall k | 0 < k < |ss| + 1
      ensures Statement(([s] + ss)[k], k == |ss|)
    {
      assert Statement(ss[k - 1], k - 1 == |ss| - 1);
    }
  }

  lemma {:induction false} KeptAreStatements(chunks: seq<string>)
    requires forall k | 0 <= k < |chunks| :: Chunks(Plain, chunks[k]) == [chunks[k]]
    requires forall k | 0 <= k < |chunks| - 1 :: Run(Plain, chunks[k]) == Plain
    ensures Statements(Kept(chunks))
    decreases |chunks|
  {
    if chunks != [] {
      var rest := chunks[1..];
      assert forall k | 0 <= k < |rest| :: rest[k] == chunks[k + 1];
      KeptAreStatements(rest);
      if !IsOnlyComments(chunks[0]) {
        TrimmedChunkIsStatement(chunks[0], |chunks| == 1);
        StatementInFront(Trim(chunks[0]), Kept(rest));
      }
    }
  }

  lemma {:induction false} SplitReturnsStatements(sql: string)
    ensures Statements(Split(sql))
  {
    ChunksScanAlone(Plain, sql);
    KeptAreStatements(Chunks(Plain, sql));
  }

  // ----- printing and splitting again -----

  function Print(ss: seq<string>): string {
    if ss == [] then ""
    else if |ss| == 1 then ss[0]
    else ss[0] + "\n;\n" + Print(ss[1..])
  }

  /** Splitting one returned statement returns it. */
  lemma {:induction false} SplitOne(s: string)
    requires Statement(s, true)
    ensures Split(s) == [s]
  {
    TrimmedPlusNewline(s);
    assert Kept([s]) == [s] + Kept([]);
  }

  lemma {:induction false} KeptGlued(w: string, chunks: seq<string>)
    requires AllSpace(w) && chunks != []
    ensures Kept(Glue(w, chunks)) == Kept(chunks)
  {
    FilterIgnoresSpace(w, chunks[0], "");
    assert w + chunks[0] + "" == w + chunks[0];
    TrimBefore(w, chunks[0]);
    assert Glue(w, chunks)[1..] == chunks[1..];
  }

  lemma {:induction false} SeparatorTurns(m: Mode, rest: string)
    requires m in {Plain, LineComment}
    ensures Chunks(m, "\n" + (";" + ("\n" + rest))) == ["\n"] + Glue("\n", Chunks(Plain, rest))
  {
    var tail := ";" + ("\n" + rest);
    Parts("\n", tail);
    Parts(";", "\n" + rest);
    SpaceTurn('\n', tail);
    OneTurn(m, "\n", tail, Plain);
    assert TurnOf(Plain, tail) == Turn(1, Plain, true);
    assert AllSpace("\n");
    ScanSpaceFirst("\n", rest);
    assert Chunks(Plain, tail) == [""] + Chunks(Plain, "\n" + rest);
    assert "\n" + "" == "\n";
  }

  lemma {:induction false} PrintedHead(s: string, rest: string)
    requires Statement(s, false)
    ensures Chunks(Plain, s + "\n;\n" + rest) == [s + "\n"] + Glue("\n", Chunks(Plain, rest))
  {
    var tail := "\n" + (";" + ("\n" + rest));
    assert s + "\n;\n" + rest == s + tail;
    ScanTwoParts(Plain, s, tail);
    SeparatorTurns(Run(Plain, s), rest);
    assert Continue([s], ["\n"] + Glue("\n", Chunks(Plain, rest))) == [s + "\n"] + Glue("\n", Chunks(Plain, rest));
  }

  lemma {:induction false} PrintedPart(s: string)
    requires Statement(s, false)
    ensures KeptPart(s + "\n") == [s]
  {
    FilterIgnoresSpace("", s, "\n");
    assert "" + s + "\n" == s + "\n";
    TrimmedPlusNewline(s);
  }

  lemma {:induction false} KeptFirst(chunk: string, rest: seq<string>)
    ensures Kept([chunk] + rest) == KeptPart(chunk) + Kept(rest)
  {
    assert ([chunk] + rest)[1..] == rest;
  }

  lemma {:induction false} PrintedOneMore(s: string, rest: string)
    requires Statement(s, false)
    ensures Split(s + "\n;\n" + rest) == [s] + Split(rest)
  {
    PrintedHead(s, rest);
    KeptFirst(s + "\n", Glue("\n", Chunks(Plain, rest)));
    PrintedPart(s);
    KeptGlued("\n", Chunks(Plain, rest));
  }

  lemma {:induction false} SplitNothing()
    ensures Split("") == []
  {
    OnlyCommentsEmpty();
    assert Chunks(Plain, "") == [""];
  }

  lemma {:induction false} StatementsRest(ss: seq<string>)
    requires Statements(ss) && |ss| > 1
    ensures Statement(ss[0], false) && Statements(ss[1..])
  {
    assert Statement(ss[0], 0 == |ss| - 1);
    forall k | 0 <= k < |ss[1..]|
      ensures Statement(ss[1..][k], k == |ss[1..]| - 1)
    {
      assert Statement(ss[k + 1], k + 1 == |ss| - 1);
    }
  }

  /** Printed statements split back into themselves. */
  lemma {:induction false} PrintedSplits(ss: seq<string>)
    requires Statements(ss)
    ensures Split(Print(ss)) == ss
    decreases |ss|
  {
    if ss == [] {
      SplitNothing();
    } else if |ss| == 1 {
      assert Statement(ss[0], 0 == |ss| - 1);
      SplitOne(ss[0]);
    } else {
      StatementsRest(ss);
      PrintedSplits(ss[1..]);
      PrintedOneMore(ss[0], Print(ss[1..]));
      assert ss == [ss[0]] + ss[1..];
    }
  }

  /** For every script: printing what `split_statements` returned, with a semicolon on a
      line of its own in between, and splitting again returns the same list, and so does
      splitting any one of the statements. */
  lemma {:induction false} SplitIsStable(sql: string, k: nat)
    ensures Split(Print(Split(sql))) == Split(sql)
    ensures k < |Split(sql)| ==> Split(Split(sql)[k]) == [Split(sql)[k]]
  {
    SplitReturnsStatements(sql);
    PrintedSplits(Split(sql));
    if k < |Split(sql)| {
      assert Statement(Split(sql)[k], k == |Split(sql)| - 1);
      SplitOne(Split(sql)[k]);
    }
  }
}
