/** What a semicolon, a comment and a literal are, said without a scanner: a script is a
    row of tokens, each of a shape of its own, and `split_statements`
    (`core/migrations.py`) cuts exactly at the semicolon tokens. */
module SqlTokens {
  import opened Wrappers
  import opened SqlSplitter

  /** `closed` is false only for a token that runs to the end of the script. */
  datatype Token =
    | Line(body: string, closed: bool)
    | Block(body: string, closed: bool)
    | Quoted(body: string, closed: bool)
    | Dollar(tag: string, body: string, closed: bool)
    | Semicolon
    | Other(c: char)

  function TextOf(t: Token): (s: string)
    ensures s != "" || (t.Dollar? && t.tag == "")
  {
    match t
    case Line(body, closed) => "--" + (if closed then body + "\n" else body)
    case Block(body, closed) => "/*" + (if closed then body + "*/" else body)
    case Quoted(body, closed) => "'" + (if closed then body + "'" else body)
    case Dollar(tag, body, closed) => tag + (if closed then body + tag else body)
    case Semicolon => ";"
    case Other(c) => [c]
  }

  function Text(tokens: seq<Token>): string {
    if tokens == [] then "" else TextOf(tokens[0]) + Text(tokens[1..])
  }

  /** A comment body whose inner comments are all complete. */
  predicate Balanced(body: string, depth: nat)
    decreases |body|
  {
    if body == "" then depth == 0
    else if StartsWith(body, '/', '*') then Balanced(body[2..], depth + 1)
    else if StartsWith(body, '*', '/') then depth > 0 && Balanced(body[2..], depth - 1)
    else Balanced(body[1..], depth)
  }

  /** A comment body that never closes: no prefix ends the comment. */
  predicate NeverCloses(body: string, depth: nat)
    decreases |body|
  {
    if body == "" then true
    else if StartsWith(body, '/', '*') then NeverCloses(body[2..], depth + 1)
    else if StartsWith(body, '*', '/') then depth > 0 && NeverCloses(body[2..], depth - 1)
    else NeverCloses(body[1..], depth)
  }

  /** The closing marker must not run together with the body. */
  predicate EndsBefore(body: string, depth: nat, marker: string)
    decreases |body|
  {
    if body == "" then true
    else if StartsWith(body + marker, '/', '*') then |body| >= 2 && EndsBefore(body[2..], depth + 1, marker)
    else if StartsWith(body + marker, '*', '/') then
      |body| >= 2 && depth > 0 && EndsBefore(body[2..], depth - 1, marker)
    else EndsBefore(body[1..], depth, marker)
  }

  /** A literal body: every quote in it is doubled. */
  predicate QuotesDoubled(body: string)
    decreases |body|
  {
    if body == "" then true
    else if body[0] == '\'' then |body| >= 2 && body[1] == '\'' && QuotesDoubled(body[2..])
    else QuotesDoubled(body[1..])
  }

  predicate NowhereIn(tag: string, s: string) {
    forall k | 0 <= k <= |s| :: !(tag <= s[k..])
  }

  /** The token may stand where `rest` follows it. */
  predicate Fits(t: Token, rest: string) {
    match t
    case Line(body, closed) => '\n' !in body && (!closed ==> rest == "")
    case Block(body, closed) =>
      if closed then Balanced(body, 0) && EndsBefore(body, 0, "*/") else rest == "" && NeverCloses(body, 0)
    case Quoted(body, closed) =>
      QuotesDoubled(body) && (if closed then rest == "" || rest[0] != '\'' else rest == "")
    case Dollar(tag, body, closed) =>
      && DollarTagAt(TextOf(t) + rest) == Some(tag)
      && (if closed then FirstAt(tag, body) else rest == "" && NowhereIn(tag, body))
    case Semicolon => true
    case Other(c) =>
      && c != '\'' && c != ';' && DollarTagAt([c] + rest).None?
      && !StartsWith([c] + rest, '-', '-') && !StartsWith([c] + rest, '/', '*')
  }

  /** The tag's first occurrence after the opening one is the closing one. */
  predicate FirstAt(tag: string, body: string) {
    forall k | 0 <= k < |body| :: !(tag <= (body + tag)[k..])
  }

  predicate Tokens(tokens: seq<Token>) {
    tokens == [] || (Fits(tokens[0], Text(tokens[1..])) && Tokens(tokens[1..]))
  }

  /** The text between the semicolon tokens. */
  function CutAtSemicolons(tokens: seq<Token>): (r: seq<string>)
    ensures r != []
  {
    if tokens == [] then [""]
    else if tokens[0].Semicolon? then [""] + CutAtSemicolons(tokens[1..])
    else Glue(TextOf(tokens[0]), CutAtSemicolons(tokens[1..]))
  }

  // ----- the scanner inside one context -----

  lemma {:induction false} GlueTwice(a: string, b: string, chunks: seq<string>)
    requires chunks != []
    ensures Glue(a, Glue(b, chunks)) == Glue(a + b, chunks)
  {
    assert a + (b + chunks[0]) == (a + b) + chunks[0];
  }

  lemma {:induction false} Parts(a: string, b: string)
    ensures (a + b)[..|a|] == a && (a + b)[|a|..] == b
    ensures a != "" ==> (a + b)[0] == a[0]
    ensures |a| > 1 ==> (a + b)[1] == a[1]
  {
  }

  lemma {:induction false} Assoc(a: string, b: string, c: string)
    ensures (a + b) + c == a + (b + c)
  {
  }

  /** A turn that takes exactly `head`. */
  lemma {:induction false} OneTurn(m: Mode, head: string, rest: string, m': Mode)
    requires head != "" && ValidMode(m) && TurnOf(m, head + rest) == Turn(|head|, m', false)
    ensures ValidMode(m') && Chunks(m, head + rest) == Glue(head, Chunks(m', rest))
  {
    Parts(head, rest);
  }

  /** A turn that takes `head` in a context that closes after `tail`. */
  lemma {:induction false} TurnInside(m: Mode, head: string, tail: string, rest: string, m': Mode)
    requires head != "" && ValidMode(m) && TurnOf(m, head + (tail + rest)) == Turn(|head|, m', false)
    requires ValidMode(m') && Chunks(m', tail + rest) == Glue(tail, Chunks(Plain, rest))
    ensures Chunks(m, (head + tail) + rest) == Glue(head + tail, Chunks(Plain, rest))
  {
    Assoc(head, tail, rest);
    OneTurn(m, head, tail + rest, m');
    GlueTwice(head, tail, Chunks(Plain, rest));
  }

  /** The same when the script ends first. */
  lemma {:induction false} TurnInsideOpen(m: Mode, head: string, tail: string, m': Mode)
    requires head != "" && ValidMode(m) && TurnOf(m, head + tail) == Turn(|head|, m', false)
    requires ValidMode(m') && Chunks(m', tail) == [tail]
    ensures Chunks(m, head + tail) == [head + tail]
  {
    OneTurn(m, head, tail, m');
  }

  /** The turn that closes a context. */
  lemma {:induction false} TurnOut(m: Mode, marker: string, rest: string)
    requires marker != "" && ValidMode(m) && TurnOf(m, marker + rest) == Turn(|marker|, Plain, false)
    ensures Chunks(m, ("" + marker) + rest) == Glue("" + marker, Chunks(Plain, rest))
  {
    assert "" + marker == marker;
    OneTurn(m, marker, rest, Plain);
  }

  lemma {:induction false} Head(body: string, n: nat)
    requires n <= |body|
    ensures body == body[..n] + body[n..]
  {
  }

  lemma {:induction false} ScanLine(body: string, rest: string)
    requires '\n' !in body
    ensures Chunks(LineComment, (body + "\n") + rest) == Glue(body + "\n", Chunks(Plain, rest))
    decreases |body|
  {
    if body == "" {
      TurnOut(LineComment, "\n", rest);
    } else {
      var head, tail := body[..1], body[1..];
      Head(body, 1);
      assert body[0] in body;
      ScanLine(tail, rest);
      Parts(head, (tail + "\n") + rest);
      TurnInside(LineComment, head, tail + "\n", rest, LineComment);
      Assoc(head, tail, "\n");
    }
  }

  lemma {:induction false} ScanOpenLine(body: string)
    requires '\n' !in body
    ensures Chunks(LineComment, body) == [body]
    decreases |body|
  {
    if body != "" {
      Head(body, 1);
      assert body[0] in body;
      ScanOpenLine(body[1..]);
      TurnInsideOpen(LineComment, body[..1], body[1..], LineComment);
    }
  }

  /** What one turn takes from a comment body and the depth after it. */
  function BlockTurn(s: string, depth: nat): (nat, int)
    requires s != ""
  {
    if StartsWith(s, '/', '*') then (2, depth + 1)
    else if StartsWith(s, '*', '/') then (2, depth - 1)
    else (1, depth)
  }

  lemma {:induction false} BlockTurnIsTurn(s: string, depth: nat)
    requires s != "" && BlockTurn(s, depth).1 >= 0
    ensures var (n, depth') := BlockTurn(s, depth);
            TurnOf(BlockComment(depth + 1), s) == Turn(n, BlockComment(depth' + 1), false)
  {
  }

  lemma {:induction false} EndsBeforeTurn(body: string, depth: nat, rest: string)
    requires body != "" && Balanced(body, depth) && EndsBefore(body, depth, "*/")
    ensures var (n, depth') := BlockTurn(body, depth);
            && depth' >= 0 && n <= |body|
            && Balanced(body[n..], depth') && EndsBefore(body[n..], depth', "*/")
            && BlockTurn((body + "*/") + rest, depth) == (n, depth')
  {
    Parts(body, "*/");
    assert ((body + "*/") + rest)[0] == (body + "*/")[0];
    assert ((body + "*/") + rest)[1] == (body + "*/")[1];
  }

  lemma {:induction false} ScanBlock(body: string, depth: nat, rest: string)
    requires Balanced(body, depth) && EndsBefore(body, depth, "*/")
    ensures Chunks(BlockComment(depth + 1), (body + "*/") + rest) == Glue(body + "*/", Chunks(Plain, rest))
    decreases |body|
  {
    var m := BlockComment(depth + 1);
    if body == "" {
      Parts("*/", rest);
      TurnOut(m, "*/", rest);
    } else {
      EndsBeforeTurn(body, depth, rest);
      var (n, depth') := BlockTurn(body, depth);
      var head, tail := body[..n], body[n..];
      ScanBlock(tail, depth', rest);
      BlockTurnIsTurn((body + "*/") + rest, depth);
      Head(body, n);
      Assoc(head, tail, "*/");
      Assoc(head, tail + "*/", rest);
      TurnInside(m, head, tail + "*/", rest, BlockComment(depth' + 1));
    }
  }

  lemma {:induction false} ScanOpenBlock(body: string, depth: nat)
    requires NeverCloses(body, depth)
    ensures Chunks(BlockComment(depth + 1), body) == [body]
    decreases |body|
  {
    if body != "" {
      var (n, depth') := BlockTurn(body, depth);
      BlockTurnIsTurn(body, depth);
      ScanOpenBlock(body[n..], depth');
      Head(body, n);
      TurnInsideOpen(BlockComment(depth + 1), body[..n], body[n..], BlockComment(depth' + 1));
    }
  }

  function QuotedTaken(body: string): nat
    requires body != ""
  {
    if body[0] == '\'' then 2 else 1
  }

  lemma {:induction false} QuotedTurn(body: string, rest: string)
    requires body != "" && QuotesDoubled(body)
    ensures QuotedTaken(body) <= |body| && QuotesDoubled(body[QuotedTaken(body)..])
    ensures TurnOf(InString, body + rest) == Turn(QuotedTaken(body), InString, false)
  {
    Parts(body, rest);
  }

  lemma {:induction false} ScanQuoted(body: string, rest: string)
    requires QuotesDoubled(body) && (rest == "" || rest[0] != '\'')
    ensures Chunks(InString, (body + "'") + rest) == Glue(body + "'", Chunks(Plain, rest))
    decreases |body|
  {
    if body == "" {
      assert |rest| > 0 ==> ("'" + rest)[1] == rest[0];
      TurnOut(InString, "'", rest);
    } else {
      var n := QuotedTaken(body);
      QuotedTurn(body, "'" + rest);
      var head, tail := body[..n], body[n..];
      ScanQuoted(tail, rest);
      Head(body, n);
      Assoc(head, tail, "'");
      Assoc(head, tail + "'", rest);
      Assoc(body, "'", rest);
      TurnInside(InString, head, tail + "'", rest, InString);
    }
  }

  lemma {:induction false} ScanOpenQuoted(body: string)
    requires QuotesDoubled(body)
    ensures Chunks(InString, body) == [body]
    decreases |body|
  {
    if body != "" {
      QuotedTurn(body, "");
      assert body + "" == body;
      var n := QuotedTaken(body);
      ScanOpenQuoted(body[n..]);
      Head(body, n);
      TurnInsideOpen(InString, body[..n], body[n..], InString);
    }
  }

  lemma {:induction false} FirstAtTail(tag: string, body: string, rest: string)
    requires body != "" && FirstAt(tag, body)
    ensures FirstAt(tag, body[1..]) && !(tag <= (body + tag) + rest)
  {
    assert (body + tag)[0..] == body + tag;
    assert |tag| <= |body + tag|;
    assert ((body + tag) + rest)[..|tag|] == (body + tag)[..|tag|];
    forall k | 0 <= k < |body[1..]|
      ensures !(tag <= (body[1..] + tag)[k..])
    {
      assert (body[1..] + tag)[k..] == (body + tag)[k + 1..];
    }
  }

  lemma {:induction false} DollarTurn(tag: string, s: string)
    requires s != "" && IsTag(tag)
    ensures TurnOf(DollarBody(tag), s)
         == if tag <= s then Turn(|tag|, Plain, false) else Turn(1, DollarBody(tag), false)
  {
  }

  lemma {:induction false} ScanDollar(tag: string, body: string, rest: string)
    requires IsTag(tag) && FirstAt(tag, body)
    ensures Chunks(DollarBody(tag), (body + tag) + rest) == Glue(body + tag, Chunks(Plain, rest))
    decreases |body|
  {
    if body == "" {
      Parts(tag, rest);
      DollarTurn(tag, tag + rest);
      TurnOut(DollarBody(tag), tag, rest);
    } else {
      FirstAtTail(tag, body, rest);
      DollarTurn(tag, (body + tag) + rest);
      var head, tail := body[..1], body[1..];
      ScanDollar(tag, tail, rest);
      Head(body, 1);
      Assoc(head, tail, tag);
      Assoc(head, tail + tag, rest);
      TurnInside(DollarBody(tag), head, tail + tag, rest, DollarBody(tag));
    }
  }

  lemma {:induction false} ScanOpenDollar(tag: string, body: string)
    requires IsTag(tag) && NowhereIn(tag, body)
    ensures Chunks(DollarBody(tag), body) == [body]
    decreases |body|
  {
    if body != "" {
      assert body[0..] == body;
      forall k | 0 <= k <= |body[1..]|
        ensures !(tag <= body[1..][k..])
      {
        assert body[1..][k..] == body[k + 1..];
      }
      DollarTurn(tag, body);
      ScanOpenDollar(tag, body[1..]);
      Head(body, 1);
      TurnInsideOpen(DollarBody(tag), body[..1], body[1..], DollarBody(tag));
    }
  }

  // ----- one token -----

  /** `open` opens a context that `tail` leaves open at the end of the script. */
  lemma {:induction false} OpeningOpen(open: string, m: Mode, tail: string, rest: string)
    requires open != "" && ValidMode(m) && rest == ""
    requires TurnOf(Plain, open + tail) == Turn(|open|, m, false)
    requires Chunks(m, tail) == [tail]
    ensures Chunks(Plain, (open + tail) + rest) == Glue(open + tail, Chunks(Plain, rest))
  {
    OneTurn(Plain, open, tail, m);
    assert (open + tail) + rest == open + tail;
    assert open + tail + "" == open + tail;
  }

  lemma {:induction false} OpeningTurns(s: string)
    requires s != ""
    ensures StartsWith(s, '-', '-') ==> TurnOf(Plain, s) == Turn(2, LineComment, false)
    ensures StartsWith(s, '/', '*') ==> TurnOf(Plain, s) == Turn(2, BlockComment(1), false)
    ensures s[0] == '\'' ==> TurnOf(Plain, s) == Turn(1, InString, false)
    ensures s[0] == '$' && DollarTagAt(s).Some? ==>
      TurnOf(Plain, s) == Turn(|DollarTagAt(s).value|, DollarBody(DollarTagAt(s).value), false)
  {
  }

  lemma {:induction false} ScanLineToken(body: string, closed: bool, rest: string)
    requires Fits(Line(body, closed), rest)
    ensures var text := TextOf(Line(body, closed));
            Chunks(Plain, text + rest) == Glue(text, Chunks(Plain, rest))
  {
    var tail := if closed then body + "\n" else body;
    Parts("--", tail + rest);
    Parts("--", tail);
    OpeningTurns("--" + (tail + rest));
    OpeningTurns("--" + tail);
    if closed {
      ScanLine(body, rest);
      TurnInside(Plain, "--", tail, rest, LineComment);
    } else {
      ScanOpenLine(body);
      OpeningOpen("--", LineComment, body, rest);
    }
  }

  lemma {:induction false} ScanBlockToken(body: string, closed: bool, rest: string)
    requires Fits(Block(body, closed), rest)
    ensures var text := TextOf(Block(body, closed));
            Chunks(Plain, text + rest) == Glue(text, Chunks(Plain, rest))
  {
    var tail := if closed then body + "*/" else body;
    Parts("/*", tail + rest);
    Parts("/*", tail);
    OpeningTurns("/*" + (tail + rest));
    OpeningTurns("/*" + tail);
    if closed {
      ScanBlock(body, 0, rest);
      TurnInside(Plain, "/*", tail, rest, BlockComment(1));
    } else {
      ScanOpenBlock(body, 0);
      OpeningOpen("/*", BlockComment(1), body, rest);
    }
  }

  lemma {:induction false} ScanQuotedToken(body: string, closed: bool, rest: string)
    requires Fits(Quoted(body, closed), rest)
    ensures var text := TextOf(Quoted(body, closed));
            Chunks(Plain, text + rest) == Glue(text, Chunks(Plain, rest))
  {
    var tail := if closed then body + "'" else body;
    Parts("'", tail + rest);
    Parts("'", tail);
    OpeningTurns("'" + (tail + rest));
    OpeningTurns("'" + tail);
    if closed {
      ScanQuoted(body, rest);
      TurnInside(Plain, "'", tail, rest, InString);
    } else {
      ScanOpenQuoted(body);
      OpeningOpen("'", InString, body, rest);
    }
  }

  lemma {:induction false} ScanDollarToken(tag: string, body: string, closed: bool, rest: string)
    requires Fits(Dollar(tag, body, closed), rest)
    ensures var text := TextOf(Dollar(tag, body, closed));
            Chunks(Plain, text + rest) == Glue(text, Chunks(Plain, rest))
  {
    var tail := if closed then body + tag else body;
    Assoc(tag, tail, rest);
    assert DollarTagAt(tag + (tail + rest)) == Some(tag);
    Parts(tag, tail + rest);
    OpeningTurns(tag + (tail + rest));
    if closed {
      ScanDollar(tag, body, rest);
      TurnInside(Plain, tag, tail, rest, DollarBody(tag));
    } else {
      ScanOpenDollar(tag, body);
      assert tail + rest == body;
      OpeningOpen(tag, DollarBody(tag), body, rest);
    }
  }

  lemma {:induction false} ScanToken(t: Token, rest: string)
    requires Fits(t, rest)
    ensures Chunks(Plain, TextOf(t) + rest)
         == if t.Semicolon? then [""] + Chunks(Plain, rest) else Glue(TextOf(t), Chunks(Plain, rest))
  {
    match t {
      case Line(body, closed) => ScanLineToken(body, closed, rest);
      case Block(body, closed) => ScanBlockToken(body, closed, rest);
      case Quoted(body, closed) => ScanQuotedToken(body, closed, rest);
      case Dollar(tag, body, closed) => ScanDollarToken(tag, body, closed, rest);
      case Semicolon => Parts(";", rest);
      case Other(c) =>
        Parts([c], rest);
        OneTurn(Plain, [c], rest, Plain);
    }
  }

  /** The raw chunks are the text between the semicolon tokens, whichever way the script
      is read as a row of tokens. */
  lemma {:induction false} CutsAreSemicolons(tokens: seq<Token>)
    requires Tokens(tokens)
    ensures Chunks(Plain, Text(tokens)) == CutAtSemicolons(tokens)
    decreases |tokens|
  {
    if tokens != [] {
      ScanToken(tokens[0], Text(tokens[1..]));
      CutsAreSemicolons(tokens[1..]);
    }
  }
}
