/** Every script can be read as a row of tokens, so `SqlTokens.CutsAreSemicolons` speaks
    about every script. */
module SqlReadings {
  import opened SqlSplitter
  import opened SqlTokens

  lemma {:induction false} ReadBlock(s: string, depth: nat) returns (body: string, closed: bool, rest: string)
    ensures s == (if closed then body + "*/" else body) + rest
    ensures closed ==> Balanced(body, depth) && EndsBefore(body, depth, "*/")
    ensures !closed ==> rest == "" && NeverCloses(body, depth)
    decreases |s|
  {
    if s == "" {
      return "", false, "";
    }
    if depth == 0 && StartsWith(s, '*', '/') {
      assert "" + "*/" == "*/" && s == "*/" + s[2..];
      return "", true, s[2..];
    }
    var (n, depth') := BlockTurn(s, depth);
    body, closed, rest := ReadBlock(s[n..], depth');
    BlockExtends(s, n, body, closed, rest, depth);
    body := s[..n] + body;
  }

  lemma {:induction false} BlockExtends(s: string, n: nat, body: string, closed: bool, rest: string, depth: nat)
    requires s != "" && n == BlockTurn(s, depth).0 && BlockTurn(s, depth).1 >= 0
    requires s[n..] == (if closed then body + "*/" else body) + rest
    requires closed ==> Balanced(body, BlockTurn(s, depth).1) && EndsBefore(body, BlockTurn(s, depth).1, "*/")
    requires !closed ==> rest == "" && NeverCloses(body, BlockTurn(s, depth).1)
    ensures s == (if closed then (s[..n] + body) + "*/" else s[..n] + body) + rest
    ensures closed ==> Balanced(s[..n] + body, depth) && EndsBefore(s[..n] + body, depth, "*/")
    ensures !closed ==> NeverCloses(s[..n] + body, depth)
  {
    var whole := s[..n] + body;
    Head(s, n);
    assert whole[n..] == body && whole[0] == s[0];
    assert |whole| > 1 ==> whole[1] == s[1];
    if closed {
      assert s[..n] + (body + "*/") == whole + "*/";
      assert (whole + "*/")[1] == s[1];
    }
  }

  lemma {:induction false} ReadQuoted(s: string) returns (body: string, closed: bool, rest: string)
    ensures s == (if closed then body + "'" else body) + rest && QuotesDoubled(body)
    ensures if closed then rest == "" || rest[0] != '\'' else rest == ""
    decreases |s|
  {
    if s == "" {
      return "", false, "";
    }
    if s[0] == '\'' && !StartsWith(s, '\'', '\'') {
      assert "" + "'" == "'" && s == "'" + s[1..];
      return "", true, s[1..];
    }
    var n := QuotedTaken(s);
    body, closed, rest := ReadQuoted(s[n..]);
    var whole := s[..n] + body;
    Head(s, n);
    assert whole[n..] == body && whole[0] == s[0];
    assert n == 2 ==> whole[1] == s[1];
    assert closed ==> s[..n] + (body + "'") == whole + "'";
    body := whole;
  }

  lemma {:induction false} ReadDollar(tag: string, s: string) returns (body: string, closed: bool, rest: string)
    requires IsTag(tag)
    ensures s == (if closed then body + tag else body) + rest
    ensures if closed then FirstAt(tag, body) else rest == "" && NowhereIn(tag, body)
    decreases |s|
  {
    if tag <= s {
      assert "" + tag == tag && s == tag + s[|tag|..];
      return "", true, s[|tag|..];
    }
    if s == "" {
      return "", false, "";
    }
    body, closed, rest := ReadDollar(tag, s[1..]);
    DollarExtends(tag, s, body, closed, rest);
    body := s[..1] + body;
  }

  lemma {:induction false} DollarExtends(tag: string, s: string, body: string, closed: bool, rest: string)
    requires s != "" && !(tag <= s) && s[1..] == (if closed then body + tag else body) + rest
    requires if closed then FirstAt(tag, body) else rest == "" && NowhereIn(tag, body)
    ensures s == (if closed then (s[..1] + body) + tag else s[..1] + body) + rest
    ensures if closed then FirstAt(tag, s[..1] + body) else NowhereIn(tag, s[..1] + body)
  {
    var whole := s[..1] + body;
    Head(s, 1);
    if closed {
      assert s[..1] + (body + tag) == whole + tag;
      forall k | 0 <= k < |whole|
        ensures !(tag <= (whole + tag)[k..])
      {
        if k == 0 {
          PrefixOfPrefix(tag, whole + tag, rest);
        } else {
          assert (whole + tag)[k..] == (body + tag)[k - 1..];
        }
      }
    } else {
      assert whole == s;
      forall k | 0 <= k <= |whole|
        ensures !(tag <= whole[k..])
      {
        assert k > 0 ==> whole[k..] == body[k - 1..];
        assert whole[0..] == s;
      }
    }
  }

  lemma {:induction false} PrefixOfPrefix(tag: string, s: string, rest: string)
    requires !(tag <= s + rest)
    ensures !(tag <= s[0..])
  {
    assert s[0..] == s;
    assert |tag| <= |s| ==> (s + rest)[..|tag|] == s[..|tag|];
  }

  lemma {:induction false} ReadLine(s: string) returns (body: string, closed: bool, rest: string)
    ensures s == (if closed then body + "\n" else body) + rest
    ensures '\n' !in body && (!closed ==> rest == "")
  {
    var n := LineLength(s);
    body := s[..n];
    Head(s, n);
    if n < |s| {
      closed, rest := true, s[n + 1..];
      assert s == (body + "\n") + rest;
    } else {
      closed, rest := false, "";
      assert body + rest == s;
    }
  }

  /** The token a script starts with. */
  lemma {:induction false} ReadToken(s: string) returns (t: Token, rest: string)
    requires s != ""
    ensures Fits(t, rest) && s == TextOf(t) + rest && TextOf(t) != ""
  {
    if StartsWith(s, '-', '-') {
      var body, closed;
      body, closed, rest := ReadLine(s[2..]);
      t := Line(body, closed);
      Reattach("--", s, if closed then body + "\n" else body, rest);
    } else if StartsWith(s, '/', '*') {
      var body, closed;
      body, closed, rest := ReadBlock(s[2..], 0);
      t := Block(body, closed);
      Reattach("/*", s, if closed then body + "*/" else body, rest);
    } else if s[0] == '\'' {
      var body, closed;
      body, closed, rest := ReadQuoted(s[1..]);
      t := Quoted(body, closed);
      Reattach("'", s, if closed then body + "'" else body, rest);
    } else if DollarTagAt(s).Some? {
      var tag := DollarTagAt(s).value;
      var body, closed;
      body, closed, rest := ReadDollar(tag, s[|tag|..]);
      t := Dollar(tag, body, closed);
      Reattach(tag, s, if closed then body + tag else body, rest);
    } else {
      t, rest := if s[0] == ';' then Semicolon else Other(s[0]), s[1..];
      Head(s, 1);
      assert TextOf(t) == s[..1];
    }
  }

  lemma {:induction false} Reattach(open: string, s: string, tail: string, rest: string)
    requires |open| <= |s| && s[..|open|] == open && s[|open|..] == tail + rest
    ensures s == (open + tail) + rest
  {
    Head(s, |open|);
    Assoc(open, tail, rest);
  }

  lemma {:induction false} EveryScriptReads(sql: string) returns (tokens: seq<Token>)
    ensures Tokens(tokens) && Text(tokens) == sql
    decreases |sql|
  {
    if sql == "" {
      return [];
    }
    var t, rest := ReadToken(sql);
    var more := EveryScriptReads(rest);
    tokens := [t] + more;
    assert tokens[1..] == more;
  }

  /** The script again, its chunks joined by semicolons. */
  function JoinWithSemicolons(chunks: seq<string>): string {
    if chunks == [] then ""
    else if |chunks| == 1 then chunks[0]
    else chunks[0] + ";" + JoinWithSemicolons(chunks[1..])
  }

  lemma {:induction false} JoinGlued(text: string, chunks: seq<string>)
    requires chunks != []
    ensures JoinWithSemicolons(Glue(text, chunks)) == text + JoinWithSemicolons(chunks)
  {
    assert Glue(text, chunks)[1..] == chunks[1..];
    if |chunks| > 1 {
      Assoc(text, chunks[0], ";");
      Assoc(text, chunks[0] + ";", JoinWithSemicolons(chunks[1..]));
    }
  }

  /** Joining the raw chunks with semicolons rebuilds the script exactly. */
  lemma {:induction false} ChunksRebuild(m: Mode, s: string)
    requires ValidMode(m)
    ensures JoinWithSemicolons(Chunks(m, s)) == s
    decreases |s|
  {
    if s != "" {
      var t := TurnOf(m, s);
      if t.cut {
        ChunksRebuild(Plain, s[1..]);
        assert ([""] + Chunks(Plain, s[1..]))[1..] == Chunks(Plain, s[1..]);
        assert "" + ";" + s[1..] == s;
      } else {
        ChunksRebuild(t.mode, s[t.taken..]);
        JoinGlued(s[..t.taken], Chunks(t.mode, s[t.taken..]));
        Head(s, t.taken);
      }
    }
  }

  /** For every script: a reading exists, every reading puts the cuts at its semicolon
      tokens and nowhere else, and nothing is lost at a cut. */
  lemma {:induction false} ScriptCuts(sql: string)
    ensures exists tokens :: Tokens(tokens) && Text(tokens) == sql
    ensures forall tokens | Tokens(tokens) && Text(tokens) == sql :: Chunks(Plain, sql) == CutAtSemicolons(tokens)
    ensures JoinWithSemicolons(Chunks(Plain, sql)) == sql
  {
    var tokens := EveryScriptReads(sql);
    forall tokens | Tokens(tokens) && Text(tokens) == sql
      ensures Chunks(Plain, sql) == CutAtSemicolons(tokens)
    {
      CutsAreSemicolons(tokens);
    }
    ChunksRebuild(Plain, sql);
  }
}
