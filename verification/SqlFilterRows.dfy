/** What `_is_only_comments` (`core/migrations.py`) drops, said without its regular
    expressions: text that is a row of blanks, gaps and dashed lines. Its gaps are not
    the scanner's block comments, and where the two differ it drops executable text. */
module SqlFilterRows {
  import opened SqlSplitter
  import opened SqlTokens
  import opened SqlRoundTrip
  import opened SqlFilter

  /** A gap runs to the first closing marker; dashes open a line that runs to its newline,
      saying anything but with gaps cut out of it even where they hold newlines. */
  datatype Piece =
    | Gap(body: string)
    | Dashes
    | Remark(c: char)
    | Blank(c: char)

  function PieceText(p: Piece): string {
    match p
    case Gap(body) => "/*" + (body + "*/")
    case Dashes => "--"
    case Remark(c) => [c]
    case Blank(c) => [c]
  }

  function RowText(row: seq<Piece>): string {
    if row == [] then "" else PieceText(row[0]) + RowText(row[1..])
  }

  predicate OpensGap(s: string) {
    StartsWith(s, '/', '*') && exists k | 2 <= k <= |s| :: StartsWith(s[k..], '*', '/')
  }

  /** The piece may stand there, on a dashed line or not, with `rest` behind it. */
  predicate PieceFits(p: Piece, dashed: bool, rest: string) {
    match p
    case Gap(body) => ClosesFirstAfter(body)
    case Dashes => !dashed
    case Remark(c) => dashed && c != '\n' && !OpensGap([c] + rest)
    case Blank(c) => if dashed then c == '\n' else IsSpace(c)
  }

  predicate DashedAfter(p: Piece, dashed: bool) {
    p.Dashes? || (dashed && !p.Blank?)
  }

  predicate Row(row: seq<Piece>, dashed: bool) {
    row == [] || (PieceFits(row[0], dashed, RowText(row[1..])) && Row(row[1..], DashedAfter(row[0], dashed)))
  }

  ghost predicate HasRow(s: string) {
    exists row :: Row(row, false) && RowText(row) == s
  }

  // ----- one piece under the two expressions -----

  /** The text is dropped, where a dashed line is running or not. */
  predicate Dropped(s: string, dashed: bool) {
    var t := StripBlocks(s);
    AllSpace(StripLines(if dashed then t[LineLength(t)..] else t))
  }

  lemma {:induction false} GapDropped(body: string, dashed: bool, rest: string)
    requires ClosesFirstAfter(body)
    ensures Dropped(PieceText(Gap(body)) + rest, dashed) <==> Dropped(rest, dashed)
  {
    var t := StripBlocks(rest);
    NearestClose(body, rest);
    if dashed {
      assert (" " + t)[1..] == t;
      assert (" " + t)[1 + LineLength(t)..] == t[LineLength(t)..];
    } else {
      LinesBefore(" ", t);
      AllSpaceConcat(" ", StripLines(t));
    }
  }

  lemma {:induction false} DashesDropped(rest: string)
    ensures Dropped("--" + rest, false) <==> Dropped(rest, true)
  {
    var t := StripBlocks(rest);
    BlocksPass("--", rest);
    assert ("--" + t)[2..] == t;
    assert ("--" + t)[2 + LineLength(t)..] == t[LineLength(t)..];
    AllSpaceConcat(" ", StripLines(t[LineLength(t)..]));
  }

  /** A character outside gaps goes through the first expression. */
  lemma {:induction false} CharacterStays(c: char, rest: string)
    requires !OpensGap([c] + rest)
    ensures StripBlocks([c] + rest) == [c] + StripBlocks(rest)
  {
    assert ([c] + rest)[1..] == rest;
  }

  lemma {:induction false} RemarkDropped(c: char, rest: string)
    requires c != '\n' && !OpensGap([c] + rest)
    ensures Dropped([c] + rest, true) <==> Dropped(rest, true)
  {
    var t := StripBlocks(rest);
    CharacterStays(c, rest);
    assert ([c] + t)[1..] == t;
    assert ([c] + t)[1 + LineLength(t)..] == t[LineLength(t)..];
  }

  lemma {:induction false} BlankDropped(c: char, dashed: bool, rest: string)
    requires if dashed then c == '\n' else IsSpace(c)
    ensures Dropped([c] + rest, dashed) <==> Dropped(rest, false)
  {
    var t := StripBlocks(rest);
    CharacterStays(c, rest);
    assert ([c] + t)[0..] == [c] + t;
    LinesBefore([c], t);
    AllSpaceConcat([c], StripLines(t));
  }

  lemma {:induction false} PieceDropped(p: Piece, dashed: bool, rest: string)
    requires PieceFits(p, dashed, rest)
    ensures Dropped(PieceText(p) + rest, dashed) <==> Dropped(rest, DashedAfter(p, dashed))
  {
    match p {
      case Gap(body) => GapDropped(body, dashed, rest);
      case Dashes => DashesDropped(rest);
      case Remark(c) => RemarkDropped(c, rest);
      case Blank(c) => BlankDropped(c, dashed, rest);
    }
  }

  // ----- rows and dropped text -----

  lemma {:induction false} RowDropped(row: seq<Piece>, dashed: bool)
    requires Row(row, dashed)
    ensures Dropped(RowText(row), dashed)
    decreases |row|
  {
    if row != [] {
      RowDropped(row[1..], DashedAfter(row[0], dashed));
      PieceDropped(row[0], dashed, RowText(row[1..]));
    }
  }

  /** The gap a text opens with. */
  lemma {:induction false} FirstGap(s: string) returns (body: string, rest: string)
    requires OpensGap(s)
    ensures s == PieceText(Gap(body)) + rest && ClosesFirstAfter(body)
  {
    var k := FindClose(s, 2).value;
    body, rest := s[2..k], s[k + 2..];
    forall i | 0 <= i < |body|
      ensures !StartsWith((body + "*/")[i..], '*', '/')
    {
      assert (body + "*/")[i..][0] == s[2 + i..][0] && (body + "*/")[i..][1] == s[2 + i..][1];
    }
    assert s == "/*" + (body + "*/") + rest;
  }

  /** Dropped text outside gaps and dashed lines is blank or opens a dashed line. */
  lemma {:induction false} FirstDropped(s: string)
    requires s != "" && Dropped(s, false) && !OpensGap(s) && !IsSpace(s[0])
    ensures |s| >= 2 && s[..2] == "--"
  {
    assert [s[0]] + s[1..] == s;
    if !StartsWith(s, '-', '-') {
      FirstSurvives(s);
    }
  }

  lemma {:induction false} FirstPiece(s: string, dashed: bool) returns (p: Piece, rest: string)
    requires s != "" && Dropped(s, dashed)
    ensures s == PieceText(p) + rest && PieceFits(p, dashed, rest)
  {
    if OpensGap(s) {
      var body;
      body, rest := FirstGap(s);
      p := Gap(body);
    } else if dashed {
      p, rest := if s[0] == '\n' then Blank('\n') else Remark(s[0]), s[1..];
      assert [s[0]] + rest == s;
    } else if IsSpace(s[0]) {
      p, rest := Blank(s[0]), s[1..];
      assert [s[0]] + rest == s;
    } else {
      FirstDropped(s);
      p, rest := Dashes, s[2..];
    }
  }

  lemma {:induction false} RowFor(s: string, dashed: bool) returns (row: seq<Piece>)
    requires Dropped(s, dashed)
    ensures Row(row, dashed) && RowText(row) == s
    decreases |s|
  {
    row := [];
    if s != "" {
      var p, rest := FirstPiece(s, dashed);
      PieceDropped(p, dashed, rest);
      var tail := RowFor(rest, DashedAfter(p, dashed));
      row := [p] + tail;
      assert row[1..] == tail;
    }
  }

  /** The filter drops a chunk exactly when it is a row of blanks, gaps and dashed lines. */
  lemma {:induction false} DroppedIffRow(chunk: string)
    ensures IsOnlyComments(chunk) <==> HasRow(chunk)
  {
    if IsOnlyComments(chunk) {
      var row := RowFor(chunk, false);
    }
    if HasRow(chunk) {
      var row :| Row(row, false) && RowText(row) == chunk;
      RowDropped(row, false);
    }
  }

  // ----- losing and sparing -----

  /** For a chunk, however it reads as tokens: executable text is lost exactly when there
      is some and the whole is a row for the filter; comments are kept for nothing exactly
      when there is nothing else and they are no such row. */
  lemma {:induction false} LostIff(tokens: seq<Token>)
    requires Tokens(tokens) && Semicolon !in tokens
    ensures Lost(tokens) <==> HasRow(Text(tokens)) && exists k | 0 <= k < |tokens| :: Executable(tokens[k])
    ensures Split(Text(tokens)) == [Trim(Text(tokens))] && CommentOnly(tokens)
      <==> !HasRow(Text(tokens)) && forall k | 0 <= k < |tokens| :: !Executable(tokens[k])
  {
    CutsAreSemicolons(tokens);
    NoSemicolonOneChunk(tokens);
    DroppedIffRow(Text(tokens));
    KeptOne(Text(tokens));
  }
}
