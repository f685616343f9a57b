/** Splitting a script into statements: `split_statements`, `_dollar_tag_at` and
    `_is_only_comments` in `core/migrations.py`. */
module SqlSplitter {
  import opened Wrappers

  // ----- characters -----

  /** Python's `str.isspace`, which is what `strip` removes. */
  predicate IsSpace(c: char) {
    var n := c as int;
    || 9 <= n <= 13 || 28 <= n <= 32 || n == 0x85 || n == 0xa0 || n == 0x1680
    || 0x2000 <= n <= 0x200a || n == 0x2028 || n == 0x2029 || n == 0x202f || n == 0x205f || n == 0x3000
  }

  /** All of them: twelve in ASCII and Latin-1, the others from U+1680 on. */
  lemma {:induction false} SpacesAre(c: char)
    ensures IsSpace(c) <==>
      || c in {' ', '\t', '\n', '\r', '\U{0B}', '\U{0C}', '\U{1C}', '\U{1D}', '\U{1E}', '\U{1F}', '\U{85}', '\U{A0}'}
      || c in {'\U{1680}', '\U{2000}', '\U{2001}', '\U{2002}', '\U{2003}', '\U{2004}', '\U{2005}', '\U{2006}'}
      || c in {'\U{2007}', '\U{2008}', '\U{2009}', '\U{200A}', '\U{2028}', '\U{2029}', '\U{202F}', '\U{205F}'}
      || c == '\U{3000}'
  {
  }

  predicate NameStart(c: char) {
    'A' <= c <= 'Z' || 'a' <= c <= 'z' || c == '_'
  }

  predicate NameChar(c: char) {
    NameStart(c) || '0' <= c <= '9'
  }

  predicate StartsWith(s: string, a: char, b: char) {
    |s| >= 2 && s[0] == a && s[1] == b
  }

  // ----- dollar tags -----

  /** Length of the longest run of name characters at the front of `s`. */
  function NameLength(s: string): (n: nat)
    ensures n <= |s| && (forall k | 0 <= k < n :: NameChar(s[k])) && (n < |s| ==> !NameChar(s[n]))
  {
    if s != "" && NameChar(s[0]) then 1 + NameLength(s[1..]) else 0
  }

  /** `$$` or `$name$` at the front of `s`. */
  function DollarTagAt(s: string): (tag: Option<string>)
    ensures tag.Some? ==> |tag.value| >= 2 && tag.value <= s && IsTag(tag.value)
  {
    if s == "" || s[0] != '$' then None
    else
      var n := NameLength(s[1..]);
      if n + 1 < |s| && s[n + 1] == '$' && (n == 0 || NameStart(s[1])) then Some(s[..n + 2]) else None
  }

  predicate IsTag(tag: string) {
    tag != "" && tag[0] == '$' && forall k | 0 <= k < |tag| :: tag[k] == '$' || NameChar(tag[k])
  }

  /** Between two dollars nothing, or a letter or underscore and then letters, digits and
      underscores. */
  predicate Quotes(tag: string) {
    var last := |tag| - 1;
    && |tag| >= 2 && tag[0] == '$' && tag[last] == '$'
    && (forall k | 0 < k < last ::
          'A' <= tag[k] <= 'Z' || 'a' <= tag[k] <= 'z' || tag[k] == '_' || ('0' <= tag[k] <= '9' && k > 1))
  }

  lemma {:induction false} DollarTagIff(s: string, tag: string)
    ensures DollarTagAt(s) == Some(tag) <==> tag <= s && Quotes(tag)
  {
    if DollarTagAt(s) == Some(tag) {
      assert forall k | 0 < k < |s| :: s[k] == s[1..][k - 1];
    }
    if tag <= s && Quotes(tag) {
      TagFound(s, tag);
    }
  }

  lemma {:induction false} TagFound(s: string, tag: string)
    requires tag <= s && Quotes(tag)
    ensures DollarTagAt(s) == Some(tag)
  {
    TagLength(s, tag);
    assert s[|tag| - 1] == '$' && (|tag| > 2 ==> NameStart(s[1]));
    assert s[..|tag|] == tag;
  }

  lemma {:induction false} TagLength(s: string, tag: string)
    requires tag <= s && Quotes(tag)
    ensures NameLength(s[1..]) == |tag| - 2
  {
    var n, rest := NameLength(s[1..]), s[1..];
    assert rest[|tag| - 2] == '$' && !NameChar('$');
    assert forall k | 0 <= k < |tag| - 2 :: rest[k] == tag[k + 1] && NameChar(rest[k]);
  }

  // ----- the scanner -----

  /** Where the scanner stands. At most one of the source's four flags is ever set. */
  datatype Mode =
    | Plain
    | LineComment
    | BlockComment(depth: nat)
    | InString
    | DollarBody(tag: string)

  predicate ValidMode(m: Mode) {
    && (m.BlockComment? ==> m.depth > 0)
    && (m.DollarBody? ==> IsTag(m.tag))
  }

  /** One turn of the loop: how much is taken, the mode after it, whether it cuts. */
  datatype Turn = Turn(taken: nat, mode: Mode, cut: bool)

  function TurnOf(m: Mode, s: string): (t: Turn)
    requires s != "" && ValidMode(m)
    ensures 0 < t.taken <= |s| && ValidMode(t.mode)
    ensures t.cut ==> t.taken == 1 && s[0] == ';' && m.Plain? && t.mode.Plain?
  {
    match m
    case LineComment => Turn(1, if s[0] == '\n' then Plain else LineComment, false)
    case BlockComment(depth) =>
      if StartsWith(s, '/', '*') then Turn(2, BlockComment(depth + 1), false)
      else if StartsWith(s, '*', '/') then Turn(2, if depth == 1 then Plain else BlockComment(depth - 1), false)
      else Turn(1, m, false)
    case DollarBody(tag) => if tag <= s then Turn(|tag|, Plain, false) else Turn(1, m, false)
    case InString =>
      if StartsWith(s, '\'', '\'') then Turn(2, InString, false)
      else Turn(1, if s[0] == '\'' then Plain else InString, false)
    case Plain => PlainTurn(s)
  }

  function PlainTurn(s: string): (t: Turn)
    requires s != ""
    ensures 0 < t.taken <= |s| && ValidMode(t.mode)
    ensures t.cut ==> t.taken == 1 && s[0] == ';' && t.mode.Plain?
  {
    if StartsWith(s, '-', '-') then Turn(2, LineComment, false)
    else if StartsWith(s, '/', '*') then Turn(2, BlockComment(1), false)
    else if s[0] == '\'' then Turn(1, InString, false)
    else if DollarTagAt(s).Some? then
      var tag := DollarTagAt(s).value;
      Turn(|tag|, DollarBody(tag), false)
    else Turn(1, Plain, s[0] == ';')
  }

  /** `text` put in front of the first chunk. */
  function Glue(text: string, chunks: seq<string>): (r: seq<string>)
    requires chunks != []
    ensures |r| == |chunks|
  {
    [text + chunks[0]] + chunks[1..]
  }

  /** The chunks of the rest of the script, the first continuing the one in progress. */
  function Chunks(m: Mode, s: string): (r: seq<string>)
    requires ValidMode(m)
    ensures r != []
    decreases |s|
  {
    if s == "" then [""]
    else
      var t := TurnOf(m, s);
      if t.cut then [""] + Chunks(Plain, s[1..]) else Glue(s[..t.taken], Chunks(t.mode, s[t.taken..]))
  }

  // ----- the comment filter -----

  // First closing marker of a block comment at or after `from`.
  function FindClose(s: string, from: nat): (k: Option<nat>)
    ensures k.Some? ==> from <= k.value && k.value + 2 <= |s| && StartsWith(s[k.value..], '*', '/')
    ensures k.Some? ==> forall i | from <= i < k.value :: !StartsWith(s[i..], '*', '/')
    ensures k.None? ==> forall i | from <= i <= |s| :: !StartsWith(s[i..], '*', '/')
    decreases |s| - from
  {
    if from + 2 > |s| then None
    else if StartsWith(s[from..], '*', '/') then Some(from)
    else FindClose(s, from + 1)
  }

  /** Block comments replaced by a space, each ending at the nearest closing marker. */
  function StripBlocks(s: string): string
    decreases |s|
  {
    if s == "" then ""
    else if StartsWith(s, '/', '*') && FindClose(s, 2).Some? then
      " " + StripBlocks(s[FindClose(s, 2).value + 2..])
    else [s[0]] + StripBlocks(s[1..])
  }

  /** Characters up to the end of the line. */
  function LineLength(s: string): (n: nat)
    ensures n <= |s| && (forall k | 0 <= k < n :: s[k] != '\n') && (n < |s| ==> s[n] == '\n')
  {
    if s == "" || s[0] == '\n' then 0 else 1 + LineLength(s[1..])
  }

  /** Line comments replaced by a space, their newlines kept. */
  function StripLines(s: string): string
    decreases |s|
  {
    if s == "" then ""
    else if StartsWith(s, '-', '-') then " " + StripLines(s[2 + LineLength(s[2..])..])
    else [s[0]] + StripLines(s[1..])
  }

  predicate AllSpace(s: string) {
    forall k | 0 <= k < |s| :: IsSpace(s[k])
  }

  predicate IsOnlyComments(chunk: string) {
    AllSpace(StripLines(StripBlocks(chunk)))
  }

  /** `str.strip`. */
  function Trim(s: string): string
    decreases |s|
  {
    if s == "" then ""
    else if IsSpace(s[0]) then Trim(s[1..])
    else if IsSpace(s[|s| - 1]) then Trim(s[..|s| - 1])
    else s
  }

  function Kept(chunks: seq<string>): seq<string> {
    if chunks == [] then []
    else KeptPart(chunks[0]) + Kept(chunks[1..])
  }

  /** What one chunk contributes. */
  function KeptPart(chunk: string): seq<string> {
    if IsOnlyComments(chunk) then [] else [Trim(chunk)]
  }

  /** What `split_statements` returns. */
  function Split(sql: string): seq<string> {
    Kept(Chunks(Plain, sql))
  }

  // ----- the method -----

  /** The four variables the source keeps; at most one is ever set. */
  datatype Flags = Flags(dollarTag: Option<string>, inString: bool, inLineComment: bool, inBlockComment: nat)

  const NO_FLAGS := Flags(None, false, false, 0)

  function FlagsOf(m: Mode): Flags {
    match m
    case Plain => NO_FLAGS
    case LineComment => NO_FLAGS.(inLineComment := true)
    case BlockComment(depth) => NO_FLAGS.(inBlockComment := depth)
    case InString => NO_FLAGS.(inString := true)
    case DollarBody(tag) => NO_FLAGS.(dollarTag := Some(tag))
  }

  /** All chunks, those already finished first. */
  function Pending(statements: seq<string>, buf: string, m: Mode, s: string): seq<string>
    requires ValidMode(m)
  {
    statements + Glue(buf, Chunks(m, s))
  }

  lemma {:induction false} PendingEnds(statements: seq<string>, buf: string, m: Mode, sql: string)
    requires ValidMode(m)
    ensures Pending([], "", Plain, sql) == Chunks(Plain, sql)
    ensures Pending(statements, buf, m, "") == statements + [buf]
  {
    var chunks := Chunks(Plain, sql);
    assert "" + chunks[0] == chunks[0];
    assert buf + "" == buf;
  }

  lemma {:induction false} PendingCut(statements: seq<string>, buf: string, s: string)
    requires s != "" && TurnOf(Plain, s).cut
    ensures Pending(statements, buf, Plain, s) == Pending(statements + [buf], "", Plain, s[1..])
  {
    var rest := Chunks(Plain, s[1..]);
    assert "" + rest[0] == rest[0];
    assert buf + "" == buf;
    assert Glue(buf, [""] + rest) == [buf] + rest;
  }

  lemma {:induction false} PendingTaken(statements: seq<string>, buf: string, m: Mode, s: string)
    requires s != "" && ValidMode(m) && !TurnOf(m, s).cut
    ensures var t := TurnOf(m, s);
            Pending(statements, buf, m, s) == Pending(statements, buf + s[..t.taken], t.mode, s[t.taken..])
  {
    var t := TurnOf(m, s);
    var rest := Chunks(t.mode, s[t.taken..]);
    assert buf + (s[..t.taken] + rest[0]) == (buf + s[..t.taken]) + rest[0];
  }

  /** The raw chunks, before filtering. */
  method Scan(sql: string) returns (statements: seq<string>)
    ensures statements == Chunks(Plain, sql)
  {
    var buf: string, flags, index: nat := "", NO_FLAGS, 0;
    statements := [];
    ghost var mode := Plain;
    assert sql[0..] == sql;
    PendingEnds([], "", mode, sql);
    while index < |sql|
      invariant index <= |sql| && ValidMode(mode) && flags == FlagsOf(mode)
      invariant Chunks(Plain, sql) == Pending(statements, buf, mode, sql[index..])
      decreases |sql| - index
    {
      statements, buf, flags, index, mode := ScanStep(sql, statements, buf, flags, index, mode);
    }
    PendingEnds(statements, buf, mode, sql);
    statements := statements + [buf];
  }

  /** One turn of the loop on everything it keeps. */
  method ScanStep(
      sql: string, statements: seq<string>, buf: string, flags: Flags, index: nat, ghost mode: Mode)
      returns (statements': seq<string>, buf': string, flags': Flags, index': nat, ghost mode': Mode)
    requires index < |sql| && ValidMode(mode) && flags == FlagsOf(mode)
    ensures index < index' <= |sql| && ValidMode(mode') && flags' == FlagsOf(mode')
    ensures Pending(statements', buf', mode', sql[index'..]) == Pending(statements, buf, mode, sql[index..])
  {
    ghost var rest := sql[index..];
    var cut;
    index', cut, flags' := TakeTurn(sql, index, flags, mode);
    mode' := TurnOf(mode, rest).mode;
    assert rest[..index' - index] == sql[index..index'] && rest[index' - index..] == sql[index'..];
    if cut {
      PendingCut(statements, buf, rest);
      statements', buf' := statements + [buf], "";
    } else {
      PendingTaken(statements, buf, mode, rest);
      statements', buf' := statements, buf + sql[index..index'];
    }
  }

  /** The branches of the loop: where the next turn starts and the flags it leaves. */
  method TakeTurn(sql: string, index: nat, flags: Flags, ghost mode: Mode)
      returns (next: nat, cut: bool, flags': Flags)
    requires index < |sql| && ValidMode(mode) && flags == FlagsOf(mode)
    ensures next <= |sql|
    ensures var t := TurnOf(mode, sql[index..]);
            next == index + t.taken && cut == t.cut && flags' == FlagsOf(t.mode)
  {
    var rest := sql[index..];
    cut, flags', next := false, flags, index + 1;
    if flags.inLineComment {
      flags' := flags.(inLineComment := rest[0] != '\n');
    } else if flags.inBlockComment > 0 {
      if StartsWith(rest, '/', '*') {
        flags', next := flags.(inBlockComment := flags.inBlockComment + 1), index + 2;
      } else if StartsWith(rest, '*', '/') {
        flags', next := flags.(inBlockComment := flags.inBlockComment - 1), index + 2;
      }
    } else if flags.dollarTag.Some? {
      if flags.dollarTag.value <= rest {
        flags', next := flags.(dollarTag := None), index + |flags.dollarTag.value|;
      }
    } else if flags.inString {
      if StartsWith(rest, '\'', '\'') {
        next := index + 2;
      } else {
        flags' := flags.(inString := rest[0] != '\'');
      }
    } else if StartsWith(rest, '-', '-') {
      flags', next := flags.(inLineComment := true), index + 2;
    } else if StartsWith(rest, '/', '*') {
      flags', next := flags.(inBlockComment := 1), index + 2;
    } else if rest[0] == '\'' {
      flags' := flags.(inString := true);
    } else {
      var tag := DollarTagAt(rest);
      if tag.Some? {
        flags', next := flags.(dollarTag := tag), index + |tag.value|;
      } else {
        cut := rest[0] == ';';
      }
    }
  }

  method SplitStatements(sql: string) returns (statements: seq<string>)
    ensures statements == Split(sql)
  {
    var chunks := Scan(sql);
    return Kept(chunks);
  }
}
