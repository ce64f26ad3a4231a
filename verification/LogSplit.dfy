/** The log splitter (`gbms_log_cstr_handler`): a text is logged line by line, lines longer than an entry
    in several pieces. */
module LogSplit {

  const LOG_BUFFER_ENTRY_SIZE: nat := 256
  const PIECE_MAX: nat := 255

  /** A line cut into pieces of at most `PIECE_MAX` characters. */
  function Pieces(line: string): (r: seq<string>)
    ensures r != []
    decreases |line|
  {
    if |line| <= PIECE_MAX then [line] else [line[..PIECE_MAX]] + Pieces(line[PIECE_MAX..])
  }

  /** Everything logged for a text whose current line so far is `line`: its pieces, then the rest. */
  function Logged(line: string, rest: string): seq<string>
    decreases |rest|
  {
    if rest == [] then Pieces(line)
    else if rest[0] == '\n' then Pieces(line) + Logged("", rest[1..])
    else Logged(line + [rest[0]], rest[1..])
  }

  /** The whole output: a blank first line is not logged. */
  function Split(text: string): seq<string> {
    if text == [] then []
    else if text[0] == '\n' then Logged("", text[1..])
    else Logged("", text)
  }

  function Join(ps: seq<string>): string {
    if ps == [] then "" else ps[0] + Join(ps[1..])
  }

  function Newlineless(s: string): string {
    if s == [] then ""
    else (if s[0] == '\n' then "" else [s[0]]) + Newlineless(s[1..])
  }

  lemma {:induction false} JoinAppend(a: seq<string>, b: seq<string>)
    ensures Join(a + b) == Join(a) + Join(b)
  {
    if a == [] {
      assert a + b == b;
    } else {
      assert (a + b)[1..] == a[1..] + b;
      JoinAppend(a[1..], b);
    }
  }

  lemma {:induction false} PiecesWhole(line: string)
    ensures Join(Pieces(line)) == line
    ensures forall p :: p in Pieces(line) ==> |p| <= PIECE_MAX
    decreases |line|
  {
    if |line| <= PIECE_MAX {
      assert Join([line]) == line + Join([]);
    } else {
      PiecesWhole(line[PIECE_MAX..]);
      assert Pieces(line)[1..] == Pieces(line[PIECE_MAX..]);
      assert line == line[..PIECE_MAX] + line[PIECE_MAX..];
    }
  }

  lemma {:induction false} LoggedWhole(line: string, rest: string)
    ensures Join(Logged(line, rest)) == line + Newlineless(rest)
    ensures forall p :: p in Logged(line, rest) ==> |p| <= PIECE_MAX
    decreases |rest|
  {
    PiecesWhole(line);
    if rest != [] {
      if rest[0] == '\n' {
        LoggedWhole("", rest[1..]);
        JoinAppend(Pieces(line), Logged("", rest[1..]));
      } else {
        LoggedWhole(line + [rest[0]], rest[1..]);
        assert line + [rest[0]] + Newlineless(rest[1..]) == line + Newlineless(rest);
      }
    }
  }

  /** For every text: the pieces have at most 255 characters and, joined, are the text without newlines. */
  lemma {:induction false} SplitWhole(text: string)
    ensures Join(Split(text)) == Newlineless(text)
    ensures forall p :: p in Split(text) ==> |p| <= PIECE_MAX
  {
    if text != [] {
      LoggedWhole("", if text[0] == '\n' then text[1..] else text);
    }
  }

  // ---------------------------------------------------------------------------------------------
  // Line by line

  /** The lines of a text, with the newlines taken out; there is one more than there are newlines. */
  function Lines(text: string): (ls: seq<string>)
    ensures ls != []
  {
    if text == [] then [""]
    else
      var rest := Lines(text[1..]);
      if text[0] == '\n' then [""] + rest else [[text[0]] + rest[0]] + rest[1..]
  }

  function Rejoined(ls: seq<string>): string
    requires ls != []
  {
    if |ls| == 1 then ls[0] else ls[0] + ['\n'] + Rejoined(ls[1..])
  }

  /** They are what the newlines separate: no line has one, and put back between the lines they give the text. */
  lemma {:induction false} LinesExact(text: string)
    ensures Rejoined(Lines(text)) == text
    ensures forall l :: l in Lines(text) ==> '\n' !in l
  {
    if text != [] {
      var ls, rest := Lines(text), Lines(text[1..]);
      LinesExact(text[1..]);
      if text[0] == '\n' {
        assert ls[1..] == rest;
      } else {
        assert ls[1..] == rest[1..] && ls[0] == [text[0]] + rest[0];
      }
      assert text == [text[0]] + text[1..];
    }
  }

  /** All pieces of all lines. */
  function AllPieces(ls: seq<string>): seq<string> {
    if ls == [] then [] else Pieces(ls[0]) + AllPieces(ls[1..])
  }

  lemma StartLine(ls: seq<string>)
    requires ls != []
    ensures ["" + ls[0]] + ls[1..] == ls
  {
    assert "" + ls[0] == ls[0];
  }

  lemma {:induction false} LoggedByLine(line: string, rest: string)
    ensures Logged(line, rest) == AllPieces([line + Lines(rest)[0]] + Lines(rest)[1..])
    decreases |rest|
  {
    var ls := Lines(rest);
    var all := [line + ls[0]] + ls[1..];
    if rest == [] {
      assert line + "" == line && AllPieces(all) == Pieces(line) + AllPieces(all[1..]);
      assert all[1..] == [];
    } else if rest[0] == '\n' {
      LoggedByLine("", rest[1..]);
      assert line + "" == line && all[1..] == Lines(rest[1..]);
      StartLine(Lines(rest[1..]));
    } else {
      LoggedByLine(line + [rest[0]], rest[1..]);
      assert line + [rest[0]] + Lines(rest[1..])[0] == line + ls[0];
      assert Lines(rest[1..])[1..] == ls[1..];
    }
  }

  /** What is logged is the text line by line, each line in its pieces, but for a blank first line. */
  lemma {:induction false} SplitByLine(text: string)
    ensures Split(text) == AllPieces(if Lines(text)[0] == "" then Lines(text)[1..] else Lines(text))
  {
    if text != [] {
      var rest := if text[0] == '\n' then text[1..] else text;
      LoggedByLine("", rest);
      StartLine(Lines(rest));
      if text[0] == '\n' {
        assert Lines(text)[1..] == Lines(rest);
      }
    }
  }

  /** A line is cut into full pieces of 255 characters and a last one that is empty only if the line is. */
  lemma {:induction false} PiecesFull(line: string)
    ensures Join(Pieces(line)) == line
    ensures forall i :: 0 <= i < |Pieces(line)| - 1 ==> |Pieces(line)[i]| == 255
    ensures var last := Pieces(line)[|Pieces(line)| - 1]; |last| <= 255 && (last == "" ==> line == "")
    decreases |line|
  {
    PiecesWhole(line);
    if |line| > PIECE_MAX {
      PiecesFull(line[PIECE_MAX..]);
      assert Pieces(line)[1..] == Pieces(line[PIECE_MAX..]);
    }
  }

  lemma {:induction false} PiecesWithin(line: string, p: string)
    requires p in Pieces(line) && '\n' !in line
    ensures '\n' !in p
    decreases |line|
  {
    if |line| > PIECE_MAX && p != line[..PIECE_MAX] {
      assert forall c :: c in line[PIECE_MAX..] ==> c in line;
      PiecesWithin(line[PIECE_MAX..], p);
    }
  }

  /** No piece crosses the end of a line. */
  lemma {:induction false} NoPieceCrosses(text: string, p: string)
    requires p in Split(text)
    ensures '\n' !in p
  {
    SplitByLine(text);
    LinesExact(text);
    var ls := if Lines(text)[0] == "" then Lines(text)[1..] else Lines(text);
    assert forall l :: l in ls ==> l in Lines(text);
    PieceOfLine(ls, p);
  }

  lemma {:induction false} PieceOfLine(ls: seq<string>, p: string)
    requires p in AllPieces(ls) && forall l :: l in ls ==> '\n' !in l
    ensures '\n' !in p
  {
    if p in Pieces(ls[0]) {
      PiecesWithin(ls[0], p);
    } else {
      PieceOfLine(ls[1..], p);
    }
  }

  /** What `"%s"` prints of a piece: up to its first NUL. */
  function Printed(p: string): string {
    if p == [] || p[0] == '\0' then "" else [p[0]] + Printed(p[1..])
  }

  function PrintAll(ps: seq<string>): string {
    if ps == [] then "" else Printed(ps[0]) + PrintAll(ps[1..])
  }

  lemma {:induction false} PrintedExact(p: string)
    ensures Printed(p) <= p && '\0' !in Printed(p)
    ensures if '\0' in p then |Printed(p)| < |p| && p[|Printed(p)|] == '\0' else Printed(p) == p
  {
    if p != [] {
      PrintedExact(p[1..]);
      assert p == [p[0]] + p[1..];
    }
  }

  lemma {:induction false} PrintAllExact(ps: seq<string>)
    ensures |PrintAll(ps)| <= |Join(ps)|
    ensures if '\0' in Join(ps) then |PrintAll(ps)| < |Join(ps)| else PrintAll(ps) == Join(ps)
  {
    if ps != [] {
      PrintedExact(ps[0]);
      PrintAllExact(ps[1..]);
    }
  }

  lemma {:induction false} NulSurvives(s: string)
    ensures '\0' in Newlineless(s) <==> '\0' in s
  {
    if s != [] {
      NulSurvives(s[1..]);
      assert s == [s[0]] + s[1..];
    }
  }

  /** What reaches the log is the text without newlines exactly when the text has no NUL in it. */
  lemma {:induction false} PrintExact(text: string)
    ensures PrintAll(Split(text)) == Newlineless(text) <==> '\0' !in text
  {
    SplitWhole(text);
    PrintAllExact(Split(text));
    NulSurvives(text);
  }

  /** A full piece is cut off as soon as the line goes on. */
  lemma {:induction false} FullPiece(full: string, more: string, rest: string)
    requires |full| == PIECE_MAX && more != []
    ensures Logged(full + more, rest) == [full] + Logged(more, rest)
    decreases |rest|
  {
    assert (full + more)[..PIECE_MAX] == full && (full + more)[PIECE_MAX..] == more;
    if rest != [] {
      if rest[0] == '\n' {
        assert [full] + Pieces(more) + Logged("", rest[1..]) == [full] + (Pieces(more) + Logged("", rest[1..]));
      } else {
        assert full + more + [rest[0]] == full + (more + [rest[0]]);
        FullPiece(full, more + [rest[0]], rest[1..]);
      }
    }
  }

  /** `gbms_log_cstr_handler`. The index steps back when a piece is full, yet the loop ends. */
  method LogCstrHandler(buf: array<char>, len: nat) returns (log: seq<string>)
    requires len < buf.Length
    modifies buf
    ensures log == Split(old(buf[..len]))
    ensures buf[..] == old(buf[..])[len := '\n']
  {
    ghost var text := buf[..len];
    var i, j := 0, 0;
    var tmp := new char[LOG_BUFFER_ENTRY_SIZE];
    log := [];
    buf[len] := '\n';
    while i <= len
      invariant 0 <= i <= len + 1 && 0 <= j <= PIECE_MAX
      invariant buf[..] == old(buf[..])[len := '\n'] && text == buf[..len]
      invariant i == 0 ==> j == 0 && log == []
      invariant 0 < i <= len ==> log + Logged(tmp[..j], text[i..]) == Split(text)
      invariant i == len + 1 ==> log == Split(text)
      decreases len + 1 - i, j
    {
      assert i < len ==> text[i..] == [text[i]] + text[i + 1..];
      if buf[i] == '\n' {
        if i != 0 {
          log := log + [tmp[..j]];
        }
        j := 0;
        assert tmp[..j] == "";
      } else if j >= LOG_BUFFER_ENTRY_SIZE - 1 {
        FullPiece(tmp[..j], [text[i]], text[i + 1..]);
        log := log + [tmp[..j]];
        i := i - 1;
        j := 0;
        assert tmp[..j] == "" && "" + [text[i + 1]] == [text[i + 1]];
      } else {
        tmp[j] := buf[i];
        assert tmp[..j + 1] == tmp[..j] + [text[i]];
        j := j + 1;
      }
      i := i + 1;
    }
  }
}
