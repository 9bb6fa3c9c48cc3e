/**
  The text of a PGN export: the five header tags, the move list in simplified
  notation wrapped into lines, and the result token. The date is a parameter,
  since the program reads it from the clock.
 */
module Pgn {
  import opened Wrappers
  import opened Pieces
  import opened Board
  import opened Serializer

  // ---------------------------------------------------------------------------
  // Result token

  /** The result written in the header tag and again after the moves. */
  function ResultToken(over: bool, winner: Winner): (r: string)
    ensures !over <==> r == "*"
  {
    if !over then "*"
    else if winner == Won(White) then "1-0"
    else if winner == Won(Black) then "0-1"
    else "1/2-1/2"
  }

  /** The token tells apart a running game, a white win, a black win and any other ending. */
  lemma ResultTokenSeparates(over1: bool, w1: Winner, over2: bool, w2: Winner)
    requires ResultToken(over1, w1) == ResultToken(over2, w2)
    ensures over1 == over2
    ensures over1 ==> (w1 == Won(White) <==> w2 == Won(White))
    ensures over1 ==> (w1 == Won(Black) <==> w2 == Won(Black))
  {
  }

  // ---------------------------------------------------------------------------
  // Numbers and squares

  function DigitChar(d: int): char
    requires 0 <= d < 10
  {
    ('0' as int + d) as char
  }

  predicate IsDigit(ch: char) {
    '0' <= ch <= '9'
  }

  /** Decimal digits of a natural number, most significant first and without leading zeros,
      as `str` prints them. */
  function NatToString(n: nat): (s: string)
    ensures |s| > 0 && forall k | 0 <= k < |s| :: IsDigit(s[k])
    ensures n < 10 <==> |s| == 1
    ensures n >= 10 ==> s[0] != '0'
  {
    if n < 10 then [DigitChar(n)] else NatToString(n / 10) + [DigitChar(n % 10)]
  }

  /** The value of a string of decimal digits: the independent reading of `NatToString`. */
  function DecimalValue(s: string): int
    requires forall k | 0 <= k < |s| :: IsDigit(s[k])
  {
    if |s| == 0 then 0 else DecimalValue(s[..|s| - 1]) * 10 + (s[|s| - 1] as int - '0' as int)
  }

  lemma {:induction false} NatToStringValue(n: nat)
    ensures DecimalValue(NatToString(n)) == n
  {
    if n >= 10 {
      NatToStringValue(n / 10);
      var s := NatToString(n);
      assert s[..|s| - 1] == NatToString(n / 10);
    }
  }

  /** A square as `<file letter><rank digit>`: column 0 is file a, row 0 is rank 8. */
  function SquareName(s: Square): (r: string)
    requires InBounds(s)
    ensures |r| == 2 && 'a' <= r[0] <= 'h' && '1' <= r[1] <= '8'
  {
    [('a' as int + s.col) as char, DigitChar(8 - s.row)]
  }

  /** Reading a square name back. */
  function ParseSquare(name: string): (r: Option<Square>)
    ensures r.Some? ==> InBounds(r.value)
  {
    if |name| == 2 && 'a' <= name[0] <= 'h' && '1' <= name[1] <= '8'
    then Some(Square(8 - (name[1] as int - '0' as int), name[0] as int - 'a' as int))
    else None
  }

  /** Square names are read back to their square, so distinct squares have distinct names. */
  lemma SquareNameInjective(s: Square, t: Square)
    requires InBounds(s) && InBounds(t)
    ensures ParseSquare(SquareName(s)) == Some(s)
    ensures SquareName(s) == SquareName(t) ==> s == t
  {
    assert ParseSquare(SquareName(t)) == Some(t);
  }

  // ---------------------------------------------------------------------------
  // Move text

  /** Upper-casing one ASCII letter. */
  function Upper(ch: char): char {
    if 'a' <= ch <= 'z' then (ch as int - 32) as char else ch
  }

  /** The letter written for a non-pawn move: the upper-cased first letter of the type name. */
  function KindLetter(k: Kind): char {
    Upper(KindName(k)[0])
  }

  /** A knight and a king print the same letter, so the notation does not tell them apart. */
  lemma KnightPrintsAsKing()
    ensures KindLetter(Knight) == KindLetter(King) == 'K'
    ensures KindLetter(Rook) == 'R' && KindLetter(Bishop) == 'B' && KindLetter(Queen) == 'Q'
  {
  }

  /** The notation of a move: the destination, behind the type letter unless a pawn moved. */
  function Notation(rec: MoveRecord): (r: string)
    requires InBounds(rec.to)
    ensures |r| >= 2 && r[|r| - 2..] == SquareName(rec.to)
    ensures rec.piece.kind == Pawn <==> |r| == 2
    ensures rec.piece.kind != Pawn ==> |r| == 3 && r[0] == KindLetter(rec.piece.kind)
  {
    if rec.piece.kind == Pawn then SquareName(rec.to) else [KindLetter(rec.piece.kind)] + SquareName(rec.to)
  }

  /** The text added for the `i`-th move: the move number before white's moves, then the
      notation and a space. */
  function MoveText(rec: MoveRecord, i: nat): (r: string)
    requires InBounds(rec.to)
  {
    (if i % 2 == 0 then NatToString(i / 2 + 1) + ". " else "") + Notation(rec) + " "
  }

  /** Before white's moves the text is the move number in decimal, a dot and a space, then the
      notation; black's moves carry the notation alone. Either way a space follows. */
  lemma MoveTextNumbered(rec: MoveRecord, i: nat)
    requires InBounds(rec.to)
    ensures i % 2 == 0 ==>
      exists d | |d| > 0 && (forall k | 0 <= k < |d| :: IsDigit(d[k])) && (|d| == 1 || d[0] != '0') ::
        DecimalValue(d) == i / 2 + 1 && MoveText(rec, i) == d + ". " + Notation(rec) + " "
    ensures i % 2 == 1 ==> MoveText(rec, i) == Notation(rec) + " "
  {
    if i % 2 == 0 {
      var d := NatToString(i / 2 + 1);
      NatToStringValue(i / 2 + 1);
      assert DecimalValue(d) == i / 2 + 1 && MoveText(rec, i) == d + ". " + Notation(rec) + " ";
    }
  }

  predicate NoNewline(s: string) {
    forall k | 0 <= k < |s| :: s[k] != '\n'
  }

  lemma NoNewlineAppend(a: string, b: string)
    requires NoNewline(a) && NoNewline(b)
    ensures NoNewline(a + b)
  {
    forall k | 0 <= k < |a + b|
      ensures (a + b)[k] != '\n'
    {
      if k < |a| {
        assert (a + b)[k] == a[k];
      } else {
        assert (a + b)[k] == b[k - |a|];
      }
    }
  }

  lemma NotationNoNewline(rec: MoveRecord)
    requires InBounds(rec.to)
    ensures NoNewline(Notation(rec))
  {
    var name := SquareName(rec.to);
    assert NoNewline(name);
    if rec.piece.kind != Pawn {
      NoNewlineAppend([KindLetter(rec.piece.kind)], name);
    }
  }

  /** A move number, a dot and a space before the notation add no newline. */
  lemma NumberedNoNewline(num: string, note: string)
    requires NoNewline(num) && NoNewline(note)
    ensures NoNewline(num + ". " + note + " ") && NoNewline(note + " ")
  {
    NoNewlineAppend(note, " ");
    NoNewlineAppend(num, ". ");
    NoNewlineAppend(num + ". ", note);
    NoNewlineAppend(num + ". " + note, " ");
  }

  lemma MoveTextNoNewline(rec: MoveRecord, i: nat)
    requires InBounds(rec.to)
    ensures NoNewline(MoveText(rec, i))
  {
    var num := NatToString(i / 2 + 1);
    assert NoNewline(num);
    NotationNoNewline(rec);
    NumberedNoNewline(num, Notation(rec));
  }

  predicate OnBoardHistory(h: seq<MoveRecord>) {
    forall k | 0 <= k < |h| :: InBounds(h[k].to)
  }

  /** The move texts of a history, in order. */
  function MoveTexts(h: seq<MoveRecord>): (ts: seq<string>)
    requires OnBoardHistory(h)
    ensures |ts| == |h| && forall k | 0 <= k < |h| :: ts[k] == MoveText(h[k], k)
  {
    seq(|h|, k requires 0 <= k < |h| => MoveText(h[k], k))
  }

  // ---------------------------------------------------------------------------
  // Line wrapping

  /** The pieces joined end to end. */
  function Concat(ts: seq<string>): string {
    if |ts| == 0 then "" else ts[0] + Concat(ts[1..])
  }

  /** The text with every newline taken out. */
  function StripNewlines(s: string): (r: string)
    ensures NoNewline(s) ==> r == s
  {
    if |s| == 0 then ""
    else (if s[0] == '\n' then "" else [s[0]]) + StripNewlines(s[1..])
  }

  /** The length of the last line: the characters after the last newline. */
  function LastLineLength(s: string): nat {
    if |s| == 0 || s[|s| - 1] == '\n' then 0 else LastLineLength(s[..|s| - 1]) + 1
  }

  /** Every line that ends in a newline is longer than 70 characters. */
  predicate FlushedLong(s: string) {
    forall k | 0 <= k < |s| && s[k] == '\n' :: LastLineLength(s[..k]) > 70
  }

  /** The empty text, or a text whose last character is a newline. */
  predicate AtLineStart(s: string) {
    |s| == 0 || s[|s| - 1] == '\n'
  }

  /** The wrap loop of `export_pgn` from move `i` on, with `line` the pending line and
      `content` the text flushed so far: a move's text is appended to the pending line, and
      the line is flushed with a newline as soon as it exceeds 70 characters. */
  function WrapLoop(ts: seq<string>, i: nat, line: string, content: string): string
    requires i <= |ts|
    decreases |ts| - i
  {
    if i == |ts| then content + line
    else
      var line' := line + ts[i];
      if |line'| > 70 then WrapLoop(ts, i + 1, "", content + line' + "\n")
      else WrapLoop(ts, i + 1, line', content)
  }

  /** The wrapped move list. */
  function MoveSection(h: seq<MoveRecord>): string
    requires OnBoardHistory(h)
  {
    WrapLoop(MoveTexts(h), 0, "", "")
  }

  lemma {:induction false} StripAppend(a: string, b: string)
    ensures StripNewlines(a + b) == StripNewlines(a) + StripNewlines(b)
  {
    if |a| > 0 {
      assert (a + b)[1..] == a[1..] + b;
      StripAppend(a[1..], b);
    } else {
      assert a + b == b;
    }
  }

  lemma {:induction false} LastLineAppend(s: string, t: string)
    requires AtLineStart(s) && NoNewline(t)
    ensures LastLineLength(s + t) == |t|
  {
    if |t| == 0 {
      assert s + t == s;
    } else {
      assert (s + t)[..|s + t| - 1] == s + t[..|t| - 1];
      LastLineAppend(s, t[..|t| - 1]);
    }
  }

  lemma FlushedLongAppend(s: string, t: string)
    requires FlushedLong(s) && NoNewline(t)
    ensures FlushedLong(s + t)
  {
    forall k | 0 <= k < |s + t| && (s + t)[k] == '\n'
      ensures LastLineLength((s + t)[..k]) > 70
    {
      assert k < |s|;
      assert (s + t)[..k] == s[..k];
    }
  }

  /** Flushing a long pending line keeps every flushed line long and starts a new line. */
  lemma FlushKeepsLong(content: string, line: string)
    requires FlushedLong(content) && AtLineStart(content) && NoNewline(line) && |line| > 70
    ensures FlushedLong(content + line + "\n") && AtLineStart(content + line + "\n")
  {
    var s := content + line + "\n";
    FlushedLongAppend(content, line);
    LastLineAppend(content, line);
    forall k | 0 <= k < |s| && s[k] == '\n'
      ensures LastLineLength(s[..k]) > 70
    {
      if k < |content + line| {
        assert s[..k] == (content + line)[..k];
      } else {
        assert s[..k] == content + line;
      }
    }
  }

  lemma {:induction false} ConcatNoNewline(ts: seq<string>, i: nat)
    requires i <= |ts| && forall k | 0 <= k < |ts| :: NoNewline(ts[k])
    decreases |ts| - i
    ensures NoNewline(Concat(ts[i..]))
  {
    if i < |ts| {
      ConcatNoNewline(ts, i + 1);
      assert ts[i..][1..] == ts[i + 1..];
    }
  }

  /** Flushing a line only adds a newline. */
  lemma StripFlush(content: string, line: string)
    requires NoNewline(line)
    ensures StripNewlines(content + line + "\n") == StripNewlines(content) + line
  {
    StripAppend(content + line, "\n");
    StripAppend(content, line);
    assert StripNewlines("\n") == "";
  }

  lemma ConcatStep(ts: seq<string>, i: nat)
    requires i < |ts|
    ensures Concat(ts[i..]) == ts[i] + Concat(ts[i + 1..])
  {
    assert ts[i..][1..] == ts[i + 1..];
  }

  lemma Regroup(a: string, line: string, t: string, rest: string)
    ensures a + (line + t) + "" + rest == a + line + (t + rest)
    ensures a + (line + t) + rest == a + line + (t + rest)
  {
  }

  /** Wrapping only inserts newlines: with them taken out, the result is the flushed text,
      the pending line and the remaining move texts, in order. */
  lemma {:induction false} WrapLoopKeepsText(ts: seq<string>, i: nat, line: string, content: string)
    requires i <= |ts| && NoNewline(line) && forall k | 0 <= k < |ts| :: NoNewline(ts[k])
    decreases |ts| - i
    ensures StripNewlines(WrapLoop(ts, i, line, content)) == StripNewlines(content) + line + Concat(ts[i..])
  {
    if i == |ts| {
      StripAppend(content, line);
      assert ts[i..] == [];
    } else {
      var line' := line + ts[i];
      NoNewlineAppend(line, ts[i]);
      ConcatStep(ts, i);
      Regroup(StripNewlines(content), line, ts[i], Concat(ts[i + 1..]));
      if |line'| > 70 {
        WrapLoopKeepsText(ts, i + 1, "", content + line' + "\n");
        StripFlush(content, line');
      } else {
        WrapLoopKeepsText(ts, i + 1, line', content);
      }
    }
  }

  /** Every flushed line is longer than 70 characters and the last line is at most 70. */
  lemma {:induction false} WrapLoopLineLengths(ts: seq<string>, i: nat, line: string, content: string)
    requires i <= |ts| && NoNewline(line) && |line| <= 70 && forall k | 0 <= k < |ts| :: NoNewline(ts[k])
    requires FlushedLong(content) && AtLineStart(content)
    decreases |ts| - i
    ensures FlushedLong(WrapLoop(ts, i, line, content))
    ensures LastLineLength(WrapLoop(ts, i, line, content)) <= 70
  {
    if i == |ts| {
      FlushedLongAppend(content, line);
      LastLineAppend(content, line);
    } else {
      var line' := line + ts[i];
      if |line'| > 70 {
        FlushKeepsLong(content, line');
        WrapLoopLineLengths(ts, i + 1, "", content + line' + "\n");
      } else {
        WrapLoopLineLengths(ts, i + 1, line', content);
      }
    }
  }

  /** The wrapped move list holds exactly the move texts in order, every line but the last is
      longer than 70 characters, and the last is at most 70. */
  lemma MoveSectionLayout(h: seq<MoveRecord>)
    requires OnBoardHistory(h)
    ensures StripNewlines(MoveSection(h)) == Concat(MoveTexts(h))
    ensures FlushedLong(MoveSection(h)) && LastLineLength(MoveSection(h)) <= 70
  {
    var ts := MoveTexts(h);
    forall k | 0 <= k < |ts|
      ensures NoNewline(ts[k])
    {
      MoveTextNoNewline(h[k], k);
    }
    WrapLoopKeepsText(ts, 0, "", "");
    assert ts[0..] == ts;
    WrapLoopLineLengths(ts, 0, "", "");
  }

  // ---------------------------------------------------------------------------
  // The whole text

  function ResultTag(token: string): string {
    "[Result \"" + token + "\"]\n"
  }

  /** The header: event, date, the two players and the result, then an empty line. */
  function Header(date: string, token: string): string {
    "[Event \"Casual Game\"]\n" + "[Date \"" + date + "\"]\n" + "[White \"Player\"]\n"
    + "[Black \"Player\"]\n" + ResultTag(token) + "\n"
  }

  /** The text `export_pgn` writes for a board, given the date it reads from the clock. */
  function ExportPgnText(b: Board, date: string): string
    requires OnBoardHistory(b.history)
  {
    var token := ResultToken(b.gameOver, b.winner);
    Header(date, token) + MoveSection(b.history) + " " + token
  }

  /** The three parts of a concatenation are recovered by slicing at their lengths. */
  lemma SliceThree(a: string, b: string, c: string)
    ensures var t := a + b + c;
            && t[..|a|] == a && t[|a|..|t| - |c|] == b && t[|t| - |c|..] == c
  {
  }

  /** The export consists of the header with the result tag, the wrapped move list, and the
      same result token after a space. */
  lemma ExportPgnLayout(b: Board, date: string)
    requires OnBoardHistory(b.history)
    ensures var text := ExportPgnText(b, date);
            var token := ResultToken(b.gameOver, b.winner);
            var head := Header(date, token);
            var moves := text[|head|..|text| - |token| - 1];
            && text[..|head|] == head
            && text[|text| - |token| - 1..] == " " + token
            && StripNewlines(moves) == Concat(MoveTexts(b.history))
            && FlushedLong(moves) && LastLineLength(moves) <= 70
  {
    var token := ResultToken(b.gameOver, b.winner);
    var head := Header(date, token);
    var section := MoveSection(b.history);
    SliceThree(head, section, " " + token);
    assert ExportPgnText(b, date) == head + section + (" " + token);
    MoveSectionLayout(b.history);
  }
}
