/** The comment filter against the tokens: `_is_only_comments` in `core/migrations.py`
    uses two regular expressions of its own, which read comments as the scanner does
    only while line comments hold no block opener and block comments do not nest. */
module SqlFilter {
  import opened Wrappers
  import opened SqlSplitter
  import opened SqlTokens
  import opened SqlRoundTrip

  /** Text that a server would run. */
  predicate Executable(t: Token) {
    !t.Line? && !t.Block? && !(t.Other? && IsSpace(t.c))
  }

  predicate OpensBlock(s: string) {
    exists k | 0 <= k <= |s| :: StartsWith(s[k..], '/', '*')
  }

  /** Comments on which the regular expressions and the scanner agree. */
  predicate PlainComment(t: Token) {
    t.Line? || t.Block? ==> !OpensBlock(t.body)
  }

  predicate PlainComments(tokens: seq<Token>) {
    forall k | 0 <= k < |tokens| :: PlainComment(tokens[k])
  }

  predicate CommentOnly(tokens: seq<Token>) {
    forall k | 0 <= k < |tokens| :: !Executable(tokens[k])
  }

  predicate BlocksClosed(tokens: seq<Token>) {
    forall k | 0 <= k < |tokens| && tokens[k].Block? :: tokens[k].closed
  }

  // ----- each token under the two expressions -----

  lemma {:induction false} BlocksPass(p: string, rest: string)
    requires !OpensBlock(p) && (p == "" || p[|p| - 1] != '/')
    ensures StripBlocks(p + rest) == p + StripBlocks(rest)
    decreases |p|
  {
    if p == "" {
      assert p + rest == rest && "" + StripBlocks(rest) == StripBlocks(rest);
    } else {
      assert p[0..] == p;
      Parts(p, rest);
      TailOpensNone(p);
      assert (p + rest)[1..] == p[1..] + rest;
      BlocksPass(p[1..], rest);
      Assoc([p[0]], p[1..], StripBlocks(rest));
      assert [p[0]] + p[1..] == p;
    }
  }

  lemma {:induction false} TailOpensNone(p: string)
    requires p != "" && !OpensBlock(p)
    ensures !OpensBlock(p[1..])
  {
    forall k | 0 <= k <= |p[1..]|
      ensures !StartsWith(p[1..][k..], '/', '*')
    {
      assert p[1..][k..] == p[k + 1..];
    }
  }

  lemma {:induction false} LineOpensNone(body: string, closed: bool)
    requires !OpensBlock(body)
    ensures !OpensBlock(TextOf(Line(body, closed)))
  {
    var text := TextOf(Line(body, closed));
    forall k | 0 <= k <= |text|
      ensures !StartsWith(text[k..], '/', '*')
    {
      if 2 <= k < 2 + |body| {
        var j := k - 2;
        assert text[k..][0] == body[j..][0];
        assert |body[j..]| > 1 ==> text[k..][1] == body[j..][1];
      }
    }
  }

  lemma {:induction false} LineStripped(body: string, closed: bool, rest: string)
    requires Fits(Line(body, closed), rest) && !OpensBlock(body)
    ensures IsOnlyComments(TextOf(Line(body, closed)) + rest) <==> IsOnlyComments(rest)
  {
    var text := TextOf(Line(body, closed));
    LineOpensNone(body, closed);
    if closed {
      assert text[|text| - 1] == '\n';
      BlocksPass(text, rest);
      LineLeavesNewline(body, StripBlocks(rest));
      AllSpaceConcat(" \n", StripLines(StripBlocks(rest)));
    } else {
      assert text + rest == text;
      OpenLineStripped(text, body);
    }
  }

  lemma {:induction false} BlocksNone(p: string)
    requires !OpensBlock(p)
    ensures StripBlocks(p) == p
    decreases |p|
  {
    if p != "" {
      assert p[0..] == p;
      TailOpensNone(p);
      BlocksNone(p[1..]);
      assert [p[0]] + p[1..] == p;
    }
  }

  lemma {:induction false} LineLengthOf(body: string, rest: string)
    requires '\n' !in body && (rest == "" || rest[0] == '\n')
    ensures LineLength(body + rest) == |body|
    decreases |body|
  {
    if body == "" {
      assert body + rest == rest;
    } else {
      Parts(body, rest);
      assert body[0] in body;
      assert (body + rest)[1..] == body[1..] + rest;
      LineLengthOf(body[1..], rest);
    }
  }

  lemma {:induction false} LineLeavesNewline(body: string, rest: string)
    requires '\n' !in body
    ensures StripLines(("--" + (body + "\n")) + rest) == " \n" + StripLines(rest)
  {
    var s := ("--" + (body + "\n")) + rest;
    assert s[2..] == body + ("\n" + rest);
    LineLengthOf(body, "\n" + rest);
    assert s[2 + |body|..] == "\n" + rest;
    LinesBefore("\n", rest);
    assert " " + ("\n" + StripLines(rest)) == " \n" + StripLines(rest);
  }

  lemma {:induction false} OpenLineStripped(text: string, body: string)
    requires '\n' !in body && text == "--" + body && !OpensBlock(text)
    ensures IsOnlyComments(text) && IsOnlyComments("")
  {
    BlocksNone(text);
    assert text[2..] == body + "";
    LineLengthOf(body, "");
    assert text[2 + |body|..] == "";
  }

  lemma {:induction false} FirstClose(body: string, s: string, from: nat)
    requires from <= |s| && Balanced(body, 0) && !OpensBlock(body) && EndsBefore(body, 0, "*/")
    requires (body + "*/") <= s[from..]
    ensures FindClose(s, from) == Some(from + |body|)
    decreases |body|
  {
    if body == "" {
      assert body + "*/" == "*/";
      assert s[from..][..2] == "*/";
    } else {
      assert body[0..] == body;
      assert s[from..][..|body| + 2] == body + "*/";
      Parts(body, "*/");
      assert (body + "*/")[1] == s[from..][1];
      TailOpensNone(body);
      assert s[from + 1..] == s[from..][1..];
      assert (body[1..] + "*/") == (body + "*/")[1..];
      FirstClose(body[1..], s, from + 1);
    }
  }

  lemma {:induction false} BlockStripped(body: string, rest: string)
    requires Fits(Block(body, true), rest) && !OpensBlock(body)
    ensures IsOnlyComments(TextOf(Block(body, true)) + rest) <==> IsOnlyComments(rest)
  {
    var s := TextOf(Block(body, true)) + rest;
    assert s[2..] == (body + "*/") + rest;
    assert s[2..][..|body| + 2] == body + "*/";
    FirstClose(body, s, 2);
    assert s[2 + |body| + 2..] == rest;
    LinesBefore(" ", StripBlocks(rest));
    AllSpaceConcat(" ", StripLines(StripBlocks(rest)));
  }

  /** A first character that both expressions let through and that is no space. */
  lemma {:induction false} FirstSurvives(s: string)
    requires s != "" && !IsSpace(s[0]) && !StartsWith(s, '-', '-')
    requires !StartsWith(s, '/', '*') || FindClose(s, 2).None?
    ensures !IsOnlyComments(s)
  {
    var tail := StripBlocks(s[1..]);
    assert StripBlocks(s) == [s[0]] + tail;
    assert tail != "" && |s| > 1 ==> tail[0] in {s[1], ' '};
    assert StripLines([s[0]] + tail)[0] == s[0];
  }

  lemma {:induction false} NeverFindsClose(body: string, s: string, from: nat)
    requires from <= |s| && s[from..] == body && NeverCloses(body, 0) && !OpensBlock(body)
    ensures FindClose(s, from) == None
    decreases |body|
  {
    if from + 2 <= |s| {
      assert body[0..] == body;
      TailOpensNone(body);
      assert s[from + 1..] == body[1..];
      NeverFindsClose(body[1..], s, from + 1);
    }
  }

  lemma {:induction false} OpenBlockSurvives(body: string)
    requires NeverCloses(body, 0) && !OpensBlock(body)
    ensures !IsOnlyComments("/*" + body)
  {
    var s := "/*" + body;
    assert s[2..] == body;
    NeverFindsClose(body, s, 2);
    FirstSurvives(s);
  }

  lemma {:induction false} ExecutableSurvives(t: Token, rest: string)
    requires Fits(t, rest) && Executable(t)
    ensures !IsOnlyComments(TextOf(t) + rest)
  {
    var s := TextOf(t) + rest;
    Parts(TextOf(t), rest);
    FirstSurvives(s);
  }

  lemma {:induction false} TokenFiltered(t: Token, rest: string)
    requires Fits(t, rest) && PlainComment(t)
    ensures IsOnlyComments(TextOf(t) + rest)
      <==> !Executable(t) && (t.Block? ==> t.closed) && IsOnlyComments(rest)
  {
    if Executable(t) {
      ExecutableSurvives(t, rest);
    } else if t.Line? {
      LineStripped(t.body, t.closed, rest);
    } else if t.Other? {
      FilterIgnoresSpace([t.c], rest, "");
      assert [t.c] + rest + "" == [t.c] + rest;
    } else if t.closed {
      BlockStripped(t.body, rest);
    } else {
      OpenBlockSurvives(t.body);
      assert TextOf(t) + rest == "/*" + t.body;
    }
  }

  /** As long as no line comment holds a block opener and no block comment nests: text
      is dropped exactly when it holds nothing executable and every block comment in it
      is terminated. */
  lemma {:induction false} DroppedIffCommentOnly(tokens: seq<Token>)
    requires Tokens(tokens) && PlainComments(tokens)
    ensures IsOnlyComments(Text(tokens)) <==> CommentOnly(tokens) && BlocksClosed(tokens)
    decreases |tokens|
  {
    if tokens == [] {
      OnlyCommentsEmpty();
    } else {
      var t, rest := tokens[0], tokens[1..];
      assert forall k | 0 <= k < |rest| :: rest[k] == tokens[k + 1];
      assert PlainComment(t);
      DroppedIffCommentOnly(rest);
      TokenFiltered(t, Text(rest));
      assert CommentOnly(tokens) <==> !Executable(t) && CommentOnly(rest) by {
        assert forall k | 0 < k < |tokens| :: tokens[k] == rest[k - 1];
      }
      assert BlocksClosed(tokens) <==> (t.Block? ==> t.closed) && BlocksClosed(rest) by {
        assert forall k | 0 < k < |tokens| :: tokens[k] == rest[k - 1];
      }
    }
  }

  // ----- the two ways to lose a statement -----

  /** The closing marker put after `x` is the first one in it. */
  predicate ClosesFirstAfter(x: string) {
    forall k | 0 <= k < |x| :: !StartsWith((x + "*/")[k..], '*', '/')
  }

  lemma {:induction false} NearestClose(x: string, rest: string)
    requires ClosesFirstAfter(x)
    ensures StripBlocks(("/*" + (x + "*/")) + rest) == " " + StripBlocks(rest)
  {
    var s := ("/*" + (x + "*/")) + rest;
    var n := 2 + |x|;
    assert s[n..][0] == '*' && s[n..][1] == '/';
    forall i | 2 <= i < n
      ensures !StartsWith(s[i..], '*', '/')
    {
      assert s[i..][0] == (x + "*/")[i - 2..][0] && s[i..][1] == (x + "*/")[i - 2..][1];
    }
    assert FindClose(s, 2) == Some(n);
    assert s[n + 2..] == rest;
  }

  /** Whatever a script holds between a line comment's block opener and the next closing
      marker is dropped with it. */
  lemma {:induction false} OpenerInLineCommentSwallows(x: string)
    requires ClosesFirstAfter(x)
    ensures IsOnlyComments("--" + ("/*" + (x + "*/")))
  {
    var inner := "/*" + (x + "*/");
    NearestClose(x, "");
    assert inner + "" == inner;
    BlocksPass("--", inner);
    assert "--" + " " + "" == "-- ";
    OpenLineStripped("-- ", " ");
    BlocksNone("-- ");
  }

  /** So is the rest of the line after two dashes that follow the first closing marker,
      even where that marker closed only an inner comment. */
  lemma {:induction false} FirstCloseSwallows(x: string, y: string)
    requires ClosesFirstAfter(x) && !OpensBlock(y) && '\n' !in y
    ensures IsOnlyComments(("/*" + (x + "*/")) + ("--" + y))
  {
    NearestClose(x, "--" + y);
    LineOpensNone(y, false);
    BlocksNone("--" + y);
    OpenLineStripped("--" + y, y);
    LinesBefore(" ", "--" + y);
    AllSpaceConcat(" ", StripLines("--" + y));
  }

  lemma {:induction false} OneMoreToken(t: Token, tokens: seq<Token>)
    requires Tokens(tokens) && Fits(t, Text(tokens))
    ensures Tokens([t] + tokens) && Text([t] + tokens) == TextOf(t) + Text(tokens)
  {
    assert ([t] + tokens)[1..] == tokens;
  }

  lemma {:induction false} NoSemicolonOneChunk(tokens: seq<Token>)
    requires Semicolon !in tokens
    ensures CutAtSemicolons(tokens) == [Text(tokens)]
  {
    if tokens != [] {
      assert tokens[0] in tokens;
      NoSemicolonOneChunk(tokens[1..]);
    }
  }

  lemma {:induction false} KeptOne(chunk: string)
    ensures Kept([chunk]) == if IsOnlyComments(chunk) then [] else [Trim(chunk)]
  {
    assert [chunk][1..] == [];
  }

  /** A script that reads as `tokens` and is dropped although one of them is executable. */
  predicate Lost(tokens: seq<Token>) {
    Tokens(tokens) && !CommentOnly(tokens) && Split(Text(tokens)) == []
  }

  lemma {:induction false} LostScript(tokens: seq<Token>, k: nat)
    requires Tokens(tokens) && Semicolon !in tokens && k < |tokens| && Executable(tokens[k])
    requires IsOnlyComments(Text(tokens))
    ensures Lost(tokens)
  {
    CutsAreSemicolons(tokens);
    NoSemicolonOneChunk(tokens);
    KeptOne(Text(tokens));
  }

  function OpenerTokens(): seq<Token> {
    [Line("/*", true)] + ([Other('x')] + [Line("*/", false)])
  }

  lemma {:induction false} OpenerText()
    ensures Tokens(OpenerTokens()) && Text(OpenerTokens()) == "--" + ("/*" + ("\nx--" + "*/"))
  {
    var tail := [Line("*/", false)];
    OneMoreToken(Line("*/", false), []);
    assert tail + [] == tail;
    assert Text(tail) == "--*/";
    OneMoreToken(Other('x'), tail);
    assert Text([Other('x')] + tail) == "x--*/";
    OneMoreToken(Line("/*", true), [Other('x')] + tail);
  }

  lemma {:induction false} OpenerScript()
    ensures "--" + ("/*" + ("\nx--" + "*/")) == "--/*\nx--*/"
  {}

  /** The `x` on the second line is SQL to the scanner and gone after the filter. */
  lemma {:induction false} OpenerInLineCommentLosesSql()
    ensures Text(OpenerTokens()) == "--/*\nx--*/" && Lost(OpenerTokens())
  {
    OpenerText();
    OpenerInLineCommentSwallows("\nx--");
    LostScript(OpenerTokens(), 1);
    OpenerScript();
  }

  function NestedTokens(): seq<Token> {
    [Block("/**/--", true)] + [Other('x')]
  }

  lemma {:induction false} NestedText()
    ensures Tokens(NestedTokens()) && Text(NestedTokens()) == ("/*" + ("/*" + "*/")) + ("--" + "*/x")
  {
    var tail := [Other('x')];
    OneMoreToken(Other('x'), []);
    assert [Other('x')] + [] == tail && Text(tail) == "x";
    NestedBodyFits();
    OneMoreToken(Block("/**/--", true), tail);
  }

  lemma {:induction false} NestedScript()
    ensures ("/*" + ("/*" + "*/")) + ("--" + "*/x") == "/*/**/--*/x"
  {}

  /** The `x` after the nested comment is SQL to the scanner and gone after the filter. */
  lemma {:induction false} NestedCommentLosesSql()
    ensures Text(NestedTokens()) == "/*/**/--*/x" && Lost(NestedTokens())
  {
    NestedText();
    FirstCloseSwallows("/*", "*/x");
    LostScript(NestedTokens(), 1);
    NestedScript();
  }

  lemma {:induction false} NestedBodyFits()
    ensures Balanced("/**/--", 0) && EndsBefore("/**/--", 0, "*/")
  {
    var body := "/**/--";
    assert body[2..] == "*/--" && "*/--"[2..] == "--" && "--"[1..] == "-" && "-"[1..] == "";
    assert Balanced("-", 0);
    assert Balanced("--", 0);
    assert Balanced("*/--", 1);
    assert body + "*/" == "/**/--*/" && "*/--" + "*/" == "*/--*/" && "--" + "*/" == "--*/" && "-" + "*/" == "-*/";
    assert EndsBefore("-", 0, "*/");
    assert EndsBefore("--", 0, "*/");
    assert EndsBefore("*/--", 1, "*/");
  }
}
