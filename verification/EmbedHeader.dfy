/**
 A file written as adjacent C++ string literals, and the reader the compiler applies to them:
 string literals (lex.string), escape sequences (lex.ccon) and the concatenation of adjacent
 literals (lex.phases), sections 5.13.5, 5.13.3 and 5.2 of ISO/IEC 14882:2017.
 */
module EmbedHeader {
  import opened Wrappers

  newtype Byte = x: int | 0 <= x < 0x100

  const NEWLINE: Byte := 0x0A

  // ----- The writer -----

  function OctalDigit(n: int): char
    requires 0 <= n < 8
  {
    '0' + n as char
  }

  function EscapeByte(b: Byte): string {
    if b == 0x5C then "\\\\"
    else if b == 0x22 then "\\\""
    else if b == 0x09 then "\\t"
    else if b == 0x0A then "\\n"
    else if b == 0x0D then "\\r"
    else if 0x20 <= b < 0x7F then [b as int as char]
    else ['\\', OctalDigit(b as int / 64), OctalDigit(b as int / 8 % 8), OctalDigit(b as int % 8)]
  }

  function EscapeLine(line: seq<Byte>): string {
    if line == [] then "" else EscapeByte(line[0]) + EscapeLine(line[1..])
  }

  /** The lines from the first literal on, the last one with the semicolon, joined by newlines. */
  function LiteralLines(pieces: seq<seq<Byte>>): string {
    if pieces == [] then ""
    else "  \"" + EscapeLine(pieces[0]) + "\"" + (if |pieces| == 1 then ";" else "") + "\n" + LiteralLines(pieces[1..])
  }

  // ----- The reader -----

  predicate IsOctal(c: char) { '0' <= c <= '7' }

  /** The octal digits an escape takes: at most three, and as many as there are. */
  function OctalLength(t: string): nat {
    if |t| == 0 || !IsOctal(t[0]) then 0
    else if |t| == 1 || !IsOctal(t[1]) then 1
    else if |t| == 2 || !IsOctal(t[2]) then 2
    else 3
  }

  function OctalValue(t: string): int
    requires forall i | 0 <= i < |t| :: IsOctal(t[i])
  {
    if t == "" then 0 else 8 * OctalValue(t[..|t| - 1]) + (t[|t| - 1] as int - '0' as int)
  }

  function SimpleEscape(c: char): Option<Byte> {
    match c
    case '\'' => Some(0x27)
    case '"' => Some(0x22)
    case '?' => Some(0x3F)
    case '\\' => Some(0x5C)
    case 'a' => Some(0x07)
    case 'b' => Some(0x08)
    case 'f' => Some(0x0C)
    case 'n' => Some(0x0A)
    case 'r' => Some(0x0D)
    case 't' => Some(0x09)
    case 'v' => Some(0x0B)
    case _ => None
  }

  /** An escape after its backslash: its byte and its length. Hexadecimal and universal names are not read. */
  function ReadEscape(t: string): Option<(Byte, nat)> {
    var n := OctalLength(t);
    if n > 0 then
      var v := OctalValue(t[..n]);
      if 0 <= v < 0x100 then Some((v as Byte, n)) else None
    else if t == "" then None
    else
      match SimpleEscape(t[0])
      case Some(b) => Some((b, 1))
      case None => None
  }

  /** Bytes read, and the text after them. */
  type Reading = Option<(seq<Byte>, string)>

  function Prepend(b: seq<Byte>, r: Reading): Reading {
    match r
    case None => None
    case Some((bytes, rest)) => Some((b + bytes, rest))
  }

  /** A literal after its opening quote. */
  function ReadLiteral(t: string): Reading
    decreases |t|
  {
    if t == "" || t[0] == '\n' || t[0] as int >= 0x80 then None
    else if t[0] == '"' then Some(([], t[1..]))
    else if t[0] == '\\' then
      match ReadEscape(t[1..])
      case Some((b, n)) => if n <= |t| - 1 then Prepend([b], ReadLiteral(t[1 + n..])) else None
      case None => None
    else Prepend([t[0] as int as Byte], ReadLiteral(t[1..]))
  }

  /** Adjacent literals, with white space between them, are one. */
  function ReadLiterals(t: string): Reading
    decreases |t|
  {
    if t != "" && (t[0] == ' ' || t[0] == '\n') then ReadLiterals(t[1..])
    else if t == "" || t[0] != '"' then Some(([], t))
    else
      match ReadLiteral(t[1..])
      case None => None
      case Some((bytes, rest)) => if |rest| < |t| then Prepend(bytes, ReadLiterals(rest)) else None
  }

  // ----- The round trip -----

  /** Whatever text follows, the escape of a byte is read as that byte and nothing of what follows is absorbed. */
  lemma EscapeReadsAlone(b: Byte, t: string)
    ensures ReadLiteral(EscapeByte(b) + t) == Prepend([b], ReadLiteral(t))
  {
    var e := EscapeByte(b);
    assert (e + t)[|e|..] == t;
    if |e| == 4 {
      OctalReads(b, t);
      assert (e + t)[1..][3..] == t;
    } else if |e| == 2 {
      assert (e + t)[1..] == e[1..] + t;
      assert (e[1..] + t)[1..] == t;
    }
  }

  lemma OctalReads(b: Byte, t: string)
    requires |EscapeByte(b)| == 4
    ensures ReadEscape((EscapeByte(b) + t)[1..]) == Some((b, 3))
  {
    var n := b as int;
    var d := [OctalDigit(n / 64), OctalDigit(n / 8 % 8), OctalDigit(n % 8)];
    assert (EscapeByte(b) + t)[1..] == d + t;
    assert (d + t)[..3] == d && OctalLength(d + t) == 3;
    ThreeDigits(d);
  }

  lemma ThreeDigits(d: string)
    requires |d| == 3 && forall i | 0 <= i < 3 :: IsOctal(d[i])
    ensures OctalValue(d) == 64 * (d[0] as int - '0' as int) + 8 * (d[1] as int - '0' as int) + (d[2] as int - '0' as int)
  {
    assert d[..2][..1] == d[..1] && d[..1][..0] == "";
    assert OctalValue(d[..1]) == d[0] as int - '0' as int;
  }

  lemma {:induction false} LineReads(line: seq<Byte>, t: string)
    ensures ReadLiteral(EscapeLine(line) + t) == Prepend(line, ReadLiteral(t))
    decreases |line|
  {
    if line == [] {
      assert EscapeLine(line) + t == t;
      assert forall bytes: seq<Byte> :: [] + bytes == bytes;
    } else {
      LineReads(line[1..], t);
      EscapeReadsAlone(line[0], EscapeLine(line[1..]) + t);
      assert EscapeLine(line) + t == EscapeByte(line[0]) + (EscapeLine(line[1..]) + t);
      assert [line[0]] + line[1..] == line;
      assert forall bytes: seq<Byte> :: [line[0]] + (line[1..] + bytes) == line + bytes;
    }
  }

  function Joined(pieces: seq<seq<Byte>>): seq<Byte> {
    if pieces == [] then [] else pieces[0] + Joined(pieces[1..])
  }

  /** A literal on its line, and what comes after it. */
  lemma OneLiteralReads(body: string, bytes: seq<Byte>, after: string)
    requires ReadLiteral(body) == Some((bytes, after)) && |after| <= |body|
    ensures ReadLiterals("  \"" + body) == Prepend(bytes, ReadLiterals(after))
  {
    var text := "  \"" + body;
    assert text[1..][1..] == "\"" + body && ("\"" + body)[1..] == body;
    assert ReadLiterals(text) == ReadLiterals(text[1..]);
    assert ReadLiterals(text[1..]) == ReadLiterals(text[1..][1..]);
  }

  /** The literals written for any pieces are read as the pieces put together, up to the semicolon. */
  lemma {:induction false} LiteralsRead(pieces: seq<seq<Byte>>)
    requires pieces != []
    ensures ReadLiterals(LiteralLines(pieces)) == Some((Joined(pieces), ";\n"))
    decreases |pieces|
  {
    var text := LiteralLines(pieces);
    var after := (if |pieces| == 1 then ";" else "") + "\n" + LiteralLines(pieces[1..]);
    var body := EscapeLine(pieces[0]) + ("\"" + after);
    assert text == "  \"" + body;
    LineReads(pieces[0], "\"" + after);
    assert ("\"" + after)[1..] == after;
    assert pieces[0] + [] == pieces[0];
    OneLiteralReads(body, pieces[0], after);
    if |pieces| == 1 {
      assert pieces[1..] == [] && after == ";\n";
      assert ReadLiterals(after) == Some(([], after));
    } else {
      assert after[1..] == LiteralLines(pieces[1..]);
      LiteralsRead(pieces[1..]);
    }
  }

  /** Two files with the same literals are the same file. */
  lemma LiteralsTellFilesApart(p: seq<seq<Byte>>, q: seq<seq<Byte>>)
    requires p != [] && q != [] && LiteralLines(p) == LiteralLines(q)
    ensures Joined(p) == Joined(q)
  {
    LiteralsRead(p);
    LiteralsRead(q);
  }

  // ----- The splitting loop -----

  /** A newline only at the end. */
  ghost predicate IsLine(p: seq<Byte>) {
    forall i | 0 <= i < |p| - 1 :: p[i] != NEWLINE
  }

  ghost predicate Ended(p: seq<Byte>) {
    p != [] && p[|p| - 1] == NEWLINE
  }

  /** The lines of a file: all but the last end in a newline, and only the empty file has an empty one. */
  ghost predicate AreLines(pieces: seq<seq<Byte>>) {
    && pieces != [] && (forall k | 0 <= k < |pieces| :: IsLine(pieces[k]))
    && (forall k | 0 <= k < |pieces| - 1 :: Ended(pieces[k]))
    && (|pieces| > 1 ==> pieces[|pieces| - 1] != [])
  }

  lemma {:induction false} JoinedSnoc(pieces: seq<seq<Byte>>, p: seq<Byte>)
    ensures Joined(pieces + [p]) == Joined(pieces) + p
    decreases |pieces|
  {
    if pieces == [] {
      assert [p][1..] == [];
    } else {
      JoinedSnoc(pieces[1..], p);
      assert (pieces + [p])[1..] == pieces[1..] + [p];
    }
  }

  method Split(data: seq<Byte>) returns (pieces: seq<seq<Byte>>)
    ensures Joined(pieces) == data && AreLines(pieces)
  {
    pieces := [];
    var start := 0;
    for i := 0 to |data|
      invariant start <= i && Joined(pieces) == data[..start]
      invariant forall k | 0 <= k < |pieces| :: IsLine(pieces[k]) && Ended(pieces[k])
      invariant forall j | start <= j < i :: data[j] != NEWLINE
    {
      if data[i] == NEWLINE {
        JoinedSnoc(pieces, data[start..i + 1]);
        assert data[..i + 1] == data[..start] + data[start..i + 1];
        pieces := pieces + [data[start..i + 1]];
        start := i + 1;
      }
    }
    if start < |data| {
      JoinedSnoc(pieces, data[start..]);
      assert data == data[..start] + data[start..];
      pieces := pieces + [data[start..]];
    }
    if pieces == [] {
      pieces := [[]];
      assert Joined([[]]) == [];
    }
    assert data[..|data|] == data;
  }

  /** The length of the first line of a file. */
  function LineLength(data: seq<Byte>): nat {
    if data == [] then 0 else if data[0] == NEWLINE then 1 else 1 + LineLength(data[1..])
  }

  lemma {:induction false} LineLengthOf(line: seq<Byte>, rest: seq<Byte>)
    requires IsLine(line) && (Ended(line) || rest == [])
    ensures LineLength(line + rest) == |line|
    decreases |line|
  {
    if line != [] {
      assert (line + rest)[1..] == line[1..] + rest;
      if |line| > 1 {
        assert line[0] != NEWLINE;
        assert Ended(line) ==> Ended(line[1..]);
        assert forall i | 0 <= i < |line| - 2 :: line[1..][i] == line[i + 1];
      }
      if line[0] != NEWLINE {
        LineLengthOf(line[1..], rest);
      }
    }
  }

  /** There is one way to cut a file into lines. */
  lemma {:induction false} LinesUnique(p: seq<seq<Byte>>, q: seq<seq<Byte>>)
    requires AreLines(p) && AreLines(q) && Joined(p) == Joined(q)
    ensures p == q
    decreases |p|
  {
    FirstLine(p);
    FirstLine(q);
    LineLengthOf(p[0], Joined(p[1..]));
    LineLengthOf(q[0], Joined(q[1..]));
    var data := Joined(p);
    assert p[0] == data[..|p[0]|] && q[0] == data[..|q[0]|];
    assert Joined(p[1..]) == data[|p[0]|..] && Joined(q[1..]) == data[|q[0]|..];
    if |p| > 1 && |q| > 1 {
      assert AreLines(p[1..]) && AreLines(q[1..]);
      LinesUnique(p[1..], q[1..]);
      assert p == [p[0]] + p[1..] && q == [q[0]] + q[1..];
    }
  }

  lemma FirstLine(p: seq<seq<Byte>>)
    requires AreLines(p)
    ensures Joined(p) == p[0] + Joined(p[1..])
    ensures |p| > 1 ==> Ended(p[0]) && Joined(p[1..]) != []
    ensures |p| == 1 ==> Joined(p[1..]) == []
  {
    if |p| > 1 {
      var rest := p[1..];
      assert rest[0] == p[1] && (|p| > 2 ==> Ended(p[1]));
    }
  }

  function Join(lines: seq<string>): string {
    if lines == [] then "" else if |lines| == 1 then lines[0] else lines[0] + "\n" + Join(lines[1..])
  }

  function Quoted(piece: seq<Byte>): string {
    "  \"" + EscapeLine(piece) + "\""
  }

  /** The lines that generate joins: quoted pieces, a semicolon after the last, and an empty line. */
  ghost predicate LinesFor(pieces: seq<seq<Byte>>, lines: seq<string>) {
    && |lines| == |pieces| + 1 && lines[|pieces|] == ""
    && forall i | 0 <= i < |pieces| :: lines[i] == Quoted(pieces[i]) + if i + 1 == |pieces| then ";" else ""
  }

  lemma {:induction false} JoinIsLiteralLines(pieces: seq<seq<Byte>>, lines: seq<string>)
    requires LinesFor(pieces, lines)
    ensures Join(lines) == LiteralLines(pieces)
    decreases |pieces|
  {
    if pieces != [] {
      assert lines[0] == Quoted(pieces[0]) + if |pieces| == 1 then ";" else "";
      JoinIsLiteralLines(pieces[1..], lines[1..]);
    }
  }

  /** generate, from the line after the one that names the variable. Read back, the text is the file. */
  method Generate(data: seq<Byte>) returns (text: string)
    ensures ReadLiterals(text) == Some((data, ";\n"))
    ensures exists pieces :: AreLines(pieces) && Joined(pieces) == data && text == LiteralLines(pieces)
  {
    var pieces := Split(data);
    var lines := [];
    for k := 0 to |pieces|
      invariant |lines| == k && forall i | 0 <= i < k :: lines[i] == Quoted(pieces[i])
    {
      lines := lines + [Quoted(pieces[k])];
    }
    lines := lines[|lines| - 1 := lines[|lines| - 1] + ";"];
    lines := lines + [""];
    text := Join(lines);
    JoinIsLiteralLines(pieces, lines);
    LiteralsRead(pieces);
  }
}
