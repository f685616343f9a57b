/** Staging the centerline: the chunking loop of `emit_sql` in `scripts/fetch-arnold.py`
    and the aggregation its SQL performs. */
module Chunker {

  /** What a chunk counts: each token and the comma after it. */
  function Size(tokens: seq<string>): nat {
    if tokens == [] then 0 else Size(tokens[..|tokens| - 1]) + |tokens[|tokens| - 1]| + 1
  }

  function Flatten(chunks: seq<seq<string>>): seq<string> {
    if chunks == [] then [] else Flatten(chunks[..|chunks| - 1]) + chunks[|chunks| - 1]
  }

  /** No chunk is empty, and none is over the cap unless one token alone is. */
  predicate WithinCap(chunks: seq<seq<string>>, cap: nat) {
    forall k | 0 <= k < |chunks| :: chunks[k] != [] && (Size(chunks[k]) <= cap || |chunks[k]| == 1)
  }

  /** The cut before a chunk was forced: its first token did not fit the one before. */
  predicate ForcedCuts(chunks: seq<seq<string>>, cap: nat) {
    forall k | 0 < k < |chunks| :: chunks[k] != [] && Size(chunks[k - 1]) + |chunks[k][0]| + 1 > cap
  }

  lemma {:induction false} SizeAppend(tokens: seq<string>, t: string)
    ensures Size(tokens + [t]) == Size(tokens) + |t| + 1
  {
    assert (tokens + [t])[..|tokens|] == tokens;
  }

  lemma {:induction false} FlattenAppend(chunks: seq<seq<string>>, c: seq<string>)
    ensures Flatten(chunks + [c]) == Flatten(chunks) + c
  {
    assert (chunks + [c])[..|chunks|] == chunks;
  }

  /** The chunks and the buffer of the loop. */
  ghost predicate Filled(
      tokens: seq<string>, chunks: seq<seq<string>>, buf: seq<string>, size: nat, cap: nat)
  {
    && Flatten(chunks) + buf == tokens && size == Size(buf)
    && WithinCap(chunks, cap) && ForcedCuts(chunks, cap)
    && (buf == [] ==> chunks == [])
    && (buf != [] ==> (size <= cap || |buf| == 1) && ForcedCuts(chunks + [buf], cap))
  }

  lemma {:induction false} TokenJoins(
      tokens: seq<string>, chunks: seq<seq<string>>, buf: seq<string>, size: nat, cap: nat, t: string)
    requires Filled(tokens, chunks, buf, size, cap) && (size + |t| + 1 <= cap || buf == [])
    ensures Filled(tokens + [t], chunks, buf + [t], size + |t| + 1, cap)
  {
    SizeAppend(buf, t);
    assert Flatten(chunks) + (buf + [t]) == tokens + [t];
    if buf != [] {
      var shorter, longer := chunks + [buf], chunks + [buf + [t]];
      forall k | 0 < k < |longer|
        ensures longer[k] != [] && Size(longer[k - 1]) + |longer[k][0]| + 1 > cap
      {
        assert shorter[k] != [] && Size(shorter[k - 1]) + |shorter[k][0]| + 1 > cap;
      }
    }
  }

  lemma {:induction false} TokenStarts(
      tokens: seq<string>, chunks: seq<seq<string>>, buf: seq<string>, size: nat, cap: nat, t: string)
    requires Filled(tokens, chunks, buf, size, cap) && size + |t| + 1 > cap && buf != []
    ensures Filled(tokens + [t], chunks + [buf], [t], |t| + 1, cap)
  {
    FlattenAppend(chunks, buf);
    SizeAppend([], t);
    assert [] + [t] == [t];
    var now, next := chunks + [buf], chunks + [buf] + [[t]];
    forall k | 0 < k < |next|
      ensures next[k] != [] && Size(next[k - 1]) + |next[k][0]| + 1 > cap
    {
      assert next[k - 1] == now[k - 1];
      if k < |now| {
        assert next[k] == now[k];
      }
    }
  }

  /** The variables of the loop. */
  datatype Progress = Progress(chunks: seq<seq<string>>, buf: seq<string>, size: nat)

  function Turn(p: Progress, t: string, cap: nat): Progress {
    if p.size + |t| + 1 > cap && p.buf != []
    then Progress(p.chunks + [p.buf], [t], |t| + 1)
    else Progress(p.chunks, p.buf + [t], p.size + |t| + 1)
  }

  function After(tokens: seq<string>, cap: nat): Progress {
    if tokens == [] then Progress([], [], 0)
    else Turn(After(tokens[..|tokens| - 1], cap), tokens[|tokens| - 1], cap)
  }

  lemma {:induction false} AfterFilled(tokens: seq<string>, cap: nat)
    ensures var p := After(tokens, cap); Filled(tokens, p.chunks, p.buf, p.size, cap)
    decreases |tokens|
  {
    if tokens != [] {
      var earlier, t := tokens[..|tokens| - 1], tokens[|tokens| - 1];
      var p := After(earlier, cap);
      assert tokens == earlier + [t];
      AfterFilled(earlier, cap);
      if p.size + |t| + 1 > cap && p.buf != [] {
        TokenStarts(earlier, p.chunks, p.buf, p.size, cap, t);
      } else {
        TokenJoins(earlier, p.chunks, p.buf, p.size, cap, t);
      }
    }
  }

  lemma {:induction false} AfterNext(tokens: seq<string>, k: nat, cap: nat)
    requires k < |tokens|
    ensures After(tokens[..k + 1], cap) == Turn(After(tokens[..k], cap), tokens[k], cap)
  {
    assert tokens[..k + 1][..k] == tokens[..k];
  }

  function AllChunks(p: Progress): seq<seq<string>> {
    if p.buf != [] then p.chunks + [p.buf] else p.chunks
  }

  lemma {:induction false} AllChunksFit(tokens: seq<string>, cap: nat)
    ensures var all := AllChunks(After(tokens, cap));
            Flatten(all) == tokens && WithinCap(all, cap) && ForcedCuts(all, cap)
  {
    var p := After(tokens, cap);
    AfterFilled(tokens, cap);
    FlattenAppend(p.chunks, p.buf);
  }

  method Chunk(tokens: seq<string>, cap: nat) returns (chunks: seq<seq<string>>)
    ensures Flatten(chunks) == tokens
    ensures WithinCap(chunks, cap) && ForcedCuts(chunks, cap)
  {
    var buf: seq<string>, size: nat := [], 0;
    chunks := [];
    for k := 0 to |tokens|
      invariant Progress(chunks, buf, size) == After(tokens[..k], cap)
    {
      var tok := tokens[k];
      AfterNext(tokens, k, cap);
      if size + |tok| + 1 > cap && buf != [] {
        chunks := chunks + [buf];
        buf, size := [], 0;
      }
      buf := buf + [tok];
      size := size + |tok| + 1;
    }
    assert tokens[..|tokens|] == tokens;
    AllChunksFit(tokens, cap);
    if buf != [] {
      chunks := chunks + [buf];
    }
  }

  // ----- reassembly -----

  function Join(parts: seq<string>): string {
    if parts == [] then ""
    else if |parts| == 1 then parts[0]
    else Join(parts[..|parts| - 1]) + "," + parts[|parts| - 1]
  }

  /** `string_agg(chunk, ',' ORDER BY part_no)` over chunks joined with commas. */
  function Aggregate(chunks: seq<seq<string>>): string {
    if chunks == [] then ""
    else if |chunks| == 1 then Join(chunks[0])
    else Aggregate(chunks[..|chunks| - 1]) + "," + Join(chunks[|chunks| - 1])
  }

  lemma {:induction false} JoinTwo(a: seq<string>, b: seq<string>)
    requires a != [] && b != []
    ensures Join(a + b) == Join(a) + "," + Join(b)
    decreases |b|
  {
    var rest, last := b[..|b| - 1], b[|b| - 1];
    assert (a + b)[..|a + b| - 1] == a + rest;
    if rest == [] {
      assert a + rest == a;
    } else {
      JoinTwo(a, rest);
      var x, y := Join(a) + ",", Join(rest);
      assert (x + y) + "," + last == x + (y + "," + last);
    }
  }

  lemma {:induction false} FlattenNonEmpty(chunks: seq<seq<string>>)
    requires chunks != [] && forall k | 0 <= k < |chunks| :: chunks[k] != []
    ensures Flatten(chunks) != []
    decreases |chunks|
  {
  }

  /** The assembled text is the whole token list joined with commas. */
  lemma {:induction false} Reassembles(chunks: seq<seq<string>>)
    requires forall k | 0 <= k < |chunks| :: chunks[k] != []
    ensures Aggregate(chunks) == Join(Flatten(chunks))
    decreases |chunks|
  {
    if chunks != [] {
      var rest, last := chunks[..|chunks| - 1], chunks[|chunks| - 1];
      Reassembles(rest);
      if rest == [] {
        assert Flatten(rest) + last == last;
      } else {
        FlattenNonEmpty(rest);
        JoinTwo(Flatten(rest), last);
      }
    }
  }

  // ----- optimality -----

  predicate Fits(chunks: seq<seq<string>>, cap: nat) {
    forall k | 0 <= k < |chunks| :: Size(chunks[k]) <= cap
  }

  lemma {:induction false} SizeConcat(a: seq<string>, b: seq<string>)
    ensures Size(a + b) == Size(a) + Size(b)
    decreases |b|
  {
    if b == [] {
      assert a + b == a;
    } else {
      assert (a + b)[..|a + b| - 1] == a + b[..|b| - 1];
      SizeConcat(a, b[..|b| - 1]);
    }
  }

  lemma {:induction false} SliceSize(tokens: seq<string>, i: nat, j: nat, k: nat)
    requires i <= j <= k <= |tokens|
    ensures Size(tokens[i..k]) == Size(tokens[i..j]) + Size(tokens[j..k])
  {
    assert tokens[i..k] == tokens[i..j] + tokens[j..k];
    SizeConcat(tokens[i..j], tokens[j..k]);
  }

  lemma {:induction false} FlattenPrefix(chunks: seq<seq<string>>, n: nat)
    requires 0 < n <= |chunks|
    ensures Flatten(chunks[..n]) == Flatten(chunks[..n - 1]) + chunks[n - 1]
  {
    assert chunks[..n][..n - 1] == chunks[..n - 1];
  }

  lemma {:induction false} FlattenGrows(chunks: seq<seq<string>>, n: nat)
    requires n <= |chunks|
    ensures Flatten(chunks[..n]) <= Flatten(chunks)
    decreases |chunks| - n
  {
    if n < |chunks| {
      FlattenGrows(chunks, n + 1);
      FlattenPrefix(chunks, n + 1);
    } else {
      assert chunks[..n] == chunks;
    }
  }

  /** Where the n-th chunk lies among the tokens. */
  lemma {:induction false} ChunkPosition(chunks: seq<seq<string>>, n: nat)
    requires 0 < n <= |chunks|
    ensures var from, to := |Flatten(chunks[..n - 1])|, |Flatten(chunks[..n])|;
            from <= to <= |Flatten(chunks)| && Flatten(chunks)[from..to] == chunks[n - 1]
  {
    FlattenPrefix(chunks, n);
    FlattenGrows(chunks, n);
  }

  /** A window that starts no later than another, and fits where the other plus the next
      token does not, ends no later either. */
  lemma {:induction false} TightWindow(tokens: seq<string>, g0: nat, g1: nat, o0: nat, o1: nat, cap: nat)
    requires o0 <= g0 <= g1 < |tokens| && o0 <= o1 <= |tokens|
    requires Size(tokens[g0..g1]) + |tokens[g1]| + 1 > cap && Size(tokens[o0..o1]) <= cap
    ensures o1 <= g1
  {
    if o1 > g1 {
      WiderWindow(tokens, g0, g1, o0, o1);
    }
  }

  lemma {:induction false} WiderWindow(tokens: seq<string>, g0: nat, g1: nat, o0: nat, o1: nat)
    requires o0 <= g0 <= g1 < o1 <= |tokens|
    ensures Size(tokens[g0..g1]) + |tokens[g1]| + 1 <= Size(tokens[o0..o1])
  {
    SliceSize(tokens, o0, g0, o1);
    SliceSize(tokens, g0, g1 + 1, o1);
    assert tokens[g0..g1 + 1] == tokens[g0..g1] + [tokens[g1]];
    SizeAppend(tokens[g0..g1], tokens[g1]);
  }

  lemma {:induction false} NextStaysAhead(greedy: seq<seq<string>>, other: seq<seq<string>>, cap: nat, n: nat)
    requires 0 < n < |greedy| && n <= |other| && Flatten(greedy) == Flatten(other)
    requires greedy[n] != [] && Size(greedy[n - 1]) + |greedy[n][0]| + 1 > cap && Size(other[n - 1]) <= cap
    requires |Flatten(other[..n - 1])| <= |Flatten(greedy[..n - 1])|
    ensures |Flatten(other[..n])| <= |Flatten(greedy[..n])|
  {
    ChunkPosition(greedy, n + 1);
    ChunkPosition(greedy, n);
    ChunkPosition(other, n);
    var g0, g1 := |Flatten(greedy[..n - 1])|, |Flatten(greedy[..n])|;
    var o0, o1 := |Flatten(other[..n - 1])|, |Flatten(other[..n])|;
    assert Flatten(greedy)[g1] == greedy[n][0];
    TightWindow(Flatten(greedy), g0, g1, o0, o1, cap);
  }

  /** With forced cuts, n chunks reach at least as far as n chunks of any other split. */
  lemma {:induction false} GreedyStaysAhead(
      greedy: seq<seq<string>>, other: seq<seq<string>>, cap: nat, n: nat)
    requires ForcedCuts(greedy, cap) && WithinCap(greedy, cap)
    requires Fits(other, cap) && Flatten(greedy) == Flatten(other)
    requires n < |greedy| && n <= |other|
    ensures |Flatten(other[..n])| <= |Flatten(greedy[..n])| < |Flatten(greedy)|
    decreases n
  {
    ChunkPosition(greedy, n + 1);
    assert greedy[n] != [];
    if n > 0 {
      GreedyStaysAhead(greedy, other, cap, n - 1);
      NextStaysAhead(greedy, other, cap, n);
    }
  }

  /** No contiguous split whose chunks all fit uses fewer chunks. */
  lemma {:induction false} ChunksAreFewest(greedy: seq<seq<string>>, other: seq<seq<string>>, cap: nat)
    requires ForcedCuts(greedy, cap) && WithinCap(greedy, cap)
    requires Fits(other, cap) && Flatten(greedy) == Flatten(other)
    ensures |greedy| <= |other|
  {
    assert other[..|other|] == other;
    if |other| < |greedy| {
      GreedyStaysAhead(greedy, other, cap, |other|);
    }
  }

  /** The size of a chunk is the length of its text and one comma more. */
  lemma {:induction false} SizeIs(tokens: seq<string>)
    requires tokens != []
    ensures Size(tokens) == |Join(tokens)| + 1
    decreases |tokens|
  {
    if |tokens| > 1 {
      SizeIs(tokens[..|tokens| - 1]);
    } else {
      assert tokens[..0] == [];
    }
  }
}
