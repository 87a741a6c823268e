/**
 The lexer of src/compiler/frontend/lexer.c. A source is a C string without its terminator;
 `rest` always is what follows the current position.
 */
module Lexer {
  type Source = s: string | '\0' !in s

  datatype Kind = Eof | Keyword(word: string) | Identifier | Integer | LBrace | RBrace | Colon | Semicolon | Dot | Error

  function Keywords(): seq<string> {
    ["ecu", "signal", "can", "flexray", "process", "input", "output", "filter", "diagnostic",
    "service", "session", "security", "request", "response", "routine", "did", "pattern",
    "match", "timeout", "flow", "frame", "id", "dlc", "extended", "periodic", "trigger"]
  }

  predicate IsDigit(c: char) { '0' <= c <= '9' }

  predicate IsAlpha(c: char) { 'a' <= c <= 'z' || 'A' <= c <= 'Z' || c == '_' }

  predicate IsAlnum(c: char) { IsAlpha(c) || IsDigit(c) }

  predicate IsNumeric(c: char) { IsDigit(c) || c == '.' }

  predicate IsBlank(c: char) { c == ' ' || c == '\t' || c == '\r' || c == '\n' }

  predicate IsComment(s: string) { 2 <= |s| && s[0] == '/' && s[1] == '/' }

  // ----- What is skipped and what is a token

  /** How many characters precede the end of the line. */
  function LineLength(s: string): (n: nat)
    ensures n <= |s|
  {
    if s == [] || s[0] == '\n' then 0 else 1 + LineLength(s[1..])
  }

  lemma {:induction false} LineEnds(s: string)
    ensures LineLength(s) < |s| ==> s[LineLength(s)] == '\n'
    ensures forall i :: 0 <= i < LineLength(s) ==> s[i] != '\n'
  {
    if s != [] && s[0] != '\n' {
      LineEnds(s[1..]);
      assert forall i :: 0 < i < |s| ==> s[i] == s[1..][i - 1];
    }
  }

  /** How many characters of white space and line comments stand in front. */
  function SkipLength(s: string): (n: nat)
    ensures n <= |s|
    decreases |s|
  {
    if s == [] then 0
    else if IsBlank(s[0]) then 1 + SkipLength(s[1..])
    else if IsComment(s) then
      var n := LineLength(s);
      assert 0 < n;
      n + SkipLength(s[n..])
    else 0
  }

  /** What follows is neither white space nor a comment. */
  lemma {:induction false} SkipStops(s: string)
    ensures SkipLength(s) < |s| ==> !IsBlank(s[SkipLength(s)]) && !IsComment(s[SkipLength(s)..])
    decreases |s|
  {
    if s == [] {
    } else if IsBlank(s[0]) {
      SkipStops(s[1..]);
      assert s[1..][SkipLength(s[1..])..] == s[SkipLength(s)..];
    } else if IsComment(s) {
      var n := LineLength(s);
      SkipStops(s[n..]);
      assert s[n..][SkipLength(s[n..])..] == s[SkipLength(s)..];
    }
  }

  /** The length of the longest run of characters of one class. */
  function RunLength(s: string, numeric: bool): (n: nat)
    ensures n <= |s|
  {
    if s == [] || !InRun(s[0], numeric) then 0 else 1 + RunLength(s[1..], numeric)
  }

  lemma {:induction false} RunIsMaximal(s: string, numeric: bool)
    ensures
      var n := RunLength(s, numeric);
      (forall i :: 0 <= i < n ==> InRun(s[i], numeric)) && (n < |s| ==> !InRun(s[n], numeric))
  {
    if s != [] && InRun(s[0], numeric) {
      RunIsMaximal(s[1..], numeric);
      assert forall i :: 0 < i < |s| ==> s[i] == s[1..][i - 1];
    }
  }

  predicate InRun(c: char, numeric: bool) { if numeric then IsNumeric(c) else IsAlnum(c) }

  function TokenLength(s: string): (n: nat)
    requires s != []
    ensures 0 < n <= |s|
  {
    if IsAlpha(s[0]) then RunLength(s, false)
    else if IsDigit(s[0]) then RunLength(s, true)
    else 1
  }

  /** A token is maximal if it is a word or a number, else one character. */
  lemma TokenIsMaximal(s: string)
    requires s != []
    ensures
      var n := TokenLength(s);
      && (IsAlpha(s[0]) ==> (forall i :: 0 <= i < n ==> IsAlnum(s[i])) && (n < |s| ==> !IsAlnum(s[n])))
      && (IsDigit(s[0]) ==> (forall i :: 0 <= i < n ==> IsNumeric(s[i])) && (n < |s| ==> !IsNumeric(s[n])))
      && (!IsAlnum(s[0]) ==> n == 1)
  {
    RunIsMaximal(s, false);
    RunIsMaximal(s, true);
  }

  /** The kind of a token is a matter of its text alone. */
  function KindOf(lexeme: string): Kind
    requires lexeme != []
  {
    var c := lexeme[0];
    if IsAlpha(c) then if lexeme in Keywords() then Keyword(lexeme) else Identifier
    else if IsDigit(c) then Integer
    else if c == '{' then LBrace
    else if c == '}' then RBrace
    else if c == ':' then Colon
    else if c == ';' then Semicolon
    else if c == '.' then Dot
    else Error
  }

  /** The kind of the token in front of `s`, read off its text. */
  lemma KindIff(s: string)
    requires s != []
    ensures
      var text := s[..TokenLength(s)];
      var kind := KindOf(text);
      && (kind == LBrace <==> text == "{") && (kind == RBrace <==> text == "}")
      && (kind == Colon <==> text == ":") && (kind == Semicolon <==> text == ";") && (kind == Dot <==> text == ".")
      && (kind == Integer <==> '0' <= s[0] <= '9')
      && (kind == Keyword(text) <==> IsAlpha(s[0]) && text in Keywords())
      && (kind == Identifier <==> IsAlpha(s[0]) && text !in Keywords())
      && (kind == Error <==> !IsAlnum(s[0]) && s[0] !in "{}:;.")
  {
    var text := s[..TokenLength(s)];
    assert text[0] == s[0];
    if !IsAlnum(s[0]) {
      assert text == [s[0]];
    }
  }

  /** The texts of all tokens. */
  function Lexemes(s: string): seq<string>
    decreases |s|
  {
    var t := s[SkipLength(s)..];
    if t == [] then [] else [t[..TokenLength(t)]] + Lexemes(t[TokenLength(t)..])
  }

  lemma LexemesUnfold(s: string, t: string)
    requires t == s[SkipLength(s)..]
    ensures t == [] ==> Lexemes(s) == []
    ensures t != [] ==> Lexemes(s) == [t[..TokenLength(t)]] + Lexemes(t[TokenLength(t)..])
  {
  }

  /** The end is reached after at most as many tokens as there are characters. */
  lemma {:induction false} TokensAreFew(s: string)
    ensures |Lexemes(s)| <= |s|
    decreases |s|
  {
    var t := s[SkipLength(s)..];
    if t != [] {
      TokensAreFew(t[TokenLength(t)..]);
    }
  }

  // ----- The tokens cover everything but white space and comments

  /** White space and line comments, each comment ended by a line end or by the end of the text. */
  ghost predicate Filler(g: string)
    decreases |g|
  {
    || g == []
    || (IsBlank(g[0]) && Filler(g[1..]))
    || (IsComment(g) && Filler(g[LineLength(g)..]))
  }

  /** What is skipped is filler. */
  lemma {:induction false} SkippedIsFiller(s: string)
    ensures Filler(s[..SkipLength(s)])
    decreases |s|
  {
    var g := s[..SkipLength(s)];
    if s == [] {
    } else if IsBlank(s[0]) {
      SkippedIsFiller(s[1..]);
      assert g[1..] == s[1..][..SkipLength(s[1..])];
    } else if IsComment(s) {
      var n := LineLength(s);
      SkippedIsFiller(s[n..]);
      LineOfPrefix(s, SkipLength(s));
      assert g[n..] == s[n..][..SkipLength(s[n..])];
    }
  }

  /** A line ends in the same place in a text that is cut off behind it. */
  lemma {:induction false} LineOfPrefix(s: string, m: nat)
    requires LineLength(s) <= m <= |s|
    ensures LineLength(s[..m]) == LineLength(s)
  {
    if s != [] && s[0] != '\n' {
      assert s[..m][1..] == s[1..][..m - 1];
      LineOfPrefix(s[1..], m - 1);
    }
  }

  /** A source is its tokens with filler before each of them and after the last. */
  ghost predicate Covered(s: string, lexemes: seq<string>)
    decreases |lexemes|
  {
    if lexemes == [] then Filler(s)
    else exists n :: 0 <= n <= |s| - |lexemes[0]| && CoveredAt(s, n, lexemes[0])
                     && Covered(s[n + |lexemes[0]|..], lexemes[1..])
  }

  ghost predicate CoveredAt(s: string, n: nat, lexeme: string) {
    n + |lexeme| <= |s| && Filler(s[..n]) && s[n..n + |lexeme|] == lexeme
  }

  lemma CoverCons(s: string, n: nat, lexeme: string, lexemes: seq<string>)
    requires CoveredAt(s, n, lexeme) && Covered(s[n + |lexeme|..], lexemes)
    ensures Covered(s, [lexeme] + lexemes)
  {
    var all := [lexeme] + lexemes;
    assert all[1..] == lexemes;
    assert CoveredAt(s, n, all[0]) && Covered(s[n + |all[0]|..], all[1..]);
  }

  lemma {:induction false} TokensCover(s: string)
    ensures Covered(s, Lexemes(s))
    decreases |s|
  {
    var n := SkipLength(s);
    var t := s[n..];
    SkippedIsFiller(s);
    LexemesUnfold(s, t);
    if t == [] {
      assert s[..n] == s;
    } else {
      var m := TokenLength(t);
      TokensCover(t[m..]);
      assert t[m..] == s[n + m..] && s[n..n + m] == t[..m];
      CoverCons(s, n, t[..m], Lexemes(t[m..]));
    }
  }

  // ----- Printing tokens with single spaces and lexing them again

  /** A text that can be a token. */
  predicate Proper(l: string) {
    && l != [] && !IsBlank(l[0])
    && (IsAlpha(l[0]) ==> forall i :: 0 <= i < |l| ==> IsAlnum(l[i]))
    && (IsDigit(l[0]) ==> forall i :: 0 <= i < |l| ==> IsNumeric(l[i]))
    && (!IsAlnum(l[0]) ==> |l| == 1)
  }

  function Spaced(ls: seq<string>): string {
    if ls == [] then "" else ls[0] + " " + Spaced(ls[1..])
  }

  lemma {:induction false} LexemesProper(s: string)
    ensures forall i :: 0 <= i < |Lexemes(s)| ==> Proper(Lexemes(s)[i])
    decreases |s|
  {
    var t := s[SkipLength(s)..];
    if t != [] {
      SkipStops(s);
      TokenIsMaximal(t);
      LexemesProper(t[TokenLength(t)..]);
    }
  }

  lemma {:induction false} RunStops(l: string, rest: string, numeric: bool)
    requires forall i :: 0 <= i < |l| ==> InRun(l[i], numeric)
    ensures RunLength(l + " " + rest, numeric) == |l|
  {
    var s := l + " " + rest;
    if l != [] {
      assert s[1..] == l[1..] + " " + rest;
      RunStops(l[1..], rest, numeric);
    }
  }

  /** A proper token followed by a space is found again, and nothing else of it. */
  lemma ProperFirst(l: string, rest: string)
    requires Proper(l)
    ensures Lexemes(l + " " + rest) == [l] + Lexemes(rest)
  {
    var s := l + " " + rest;
    assert s[0] == l[0] && (|l| == 1 ==> s[1] == ' ');
    assert SkipLength(s) == 0 && s[0..] == s;
    if IsAlpha(l[0]) {
      RunStops(l, rest, false);
    } else if IsDigit(l[0]) {
      RunStops(l, rest, true);
    }
    assert TokenLength(s) == |l| && s[..|l|] == l;
    assert s[|l|..] == " " + rest;
    SpaceSkipped(rest);
  }

  lemma SpaceSkipped(rest: string)
    ensures Lexemes(" " + rest) == Lexemes(rest)
  {
    var s := " " + rest;
    assert s[1..] == rest;
    assert s[SkipLength(s)..] == rest[SkipLength(rest)..];
  }

  lemma {:induction false} SpacedRelexes(ls: seq<string>)
    requires forall i :: 0 <= i < |ls| ==> Proper(ls[i])
    ensures Lexemes(Spaced(ls)) == ls
  {
    if ls != [] {
      SpacedRelexes(ls[1..]);
      ProperFirst(ls[0], Spaced(ls[1..]));
      assert ls == [ls[0]] + ls[1..];
    }
  }

  /** Printing the tokens of any source, one space after each, and lexing the result gives the same tokens. */
  lemma RelexingRoundTrip(s: string)
    ensures Lexemes(Spaced(Lexemes(s))) == Lexemes(s)
  {
    LexemesProper(s);
    SpacedRelexes(Lexemes(s));
  }

  // ----- Lines and columns

  datatype Position = Position(line: nat, column: nat)

  /** Where a text ends that starts at a position: the true line and column. */
  function After(p: Position, text: string): Position
    decreases |text|
  {
    if text == [] then p else After(Past(p, text[0]), text[1..])
  }

  function Past(p: Position, c: char): Position {
    if c == '\n' then Position(p.line + 1, 1) else Position(p.line, p.column + 1)
  }

  /** Where the lexer believes to be after skipping: comments do not move its column. */
  function SkipPosition(p: Position, s: string): Position
    decreases |s|
  {
    if s == [] then p
    else if IsBlank(s[0]) then SkipPosition(Past(p, s[0]), s[1..])
    else if IsComment(s) then SkipPosition(p, s[LineLength(s)..])
    else p
  }

  /** What is skipped ends in a comment that runs to the end of the text. */
  predicate EndsInComment(s: string)
    decreases |s|
  {
    if s == [] then false
    else if IsBlank(s[0]) then EndsInComment(s[1..])
    else if IsComment(s) then LineLength(s) == |s| || EndsInComment(s[LineLength(s)..])
    else false
  }

  lemma {:induction false} AfterConcat(p: Position, a: string, b: string)
    ensures After(p, a + b) == After(After(p, a), b)
    decreases |a|
  {
    if a == [] {
      assert a + b == b;
    } else {
      assert (a + b)[0] == a[0] && (a + b)[1..] == a[1..] + b;
      AfterConcat(Past(p, a[0]), a[1..], b);
    }
  }

  lemma {:induction false} AfterLine(p: Position, text: string)
    requires forall i :: 0 <= i < |text| ==> text[i] != '\n'
    ensures After(p, text) == Position(p.line, p.column + |text|)
    decreases |text|
  {
    if text != [] {
      AfterLine(Past(p, text[0]), text[1..]);
    }
  }

  lemma AfterFirst(p: Position, s: string, n: nat)
    requires 0 < n <= |s|
    ensures After(p, s[..n]) == After(Past(p, s[0]), s[1..][..n - 1])
  {
    assert s[..n][0] == s[0] && s[..n][1..] == s[1..][..n - 1];
  }

  /**
   The believed position is the true one wherever a token follows, and at the end of the
   source exactly if no comment runs to the end; the line is always true.
   */
  lemma {:induction false} SkipPositionTrue(p: Position, s: string)
    ensures
      var believed, actual := SkipPosition(p, s), After(p, s[..SkipLength(s)]);
      && believed.line == actual.line
      && (believed == actual <==> !EndsInComment(s))
      && (EndsInComment(s) ==> SkipLength(s) == |s|)
    decreases |s|, 1
  {
    if s == [] {
      assert s[..0] == [];
    } else if IsBlank(s[0]) {
      SkipPositionTrue(Past(p, s[0]), s[1..]);
      AfterFirst(p, s, SkipLength(s));
    } else if IsComment(s) {
      CommentPositionTrue(p, s);
    } else {
      assert s[..0] == [];
    }
  }

  /** A comment leaves the column behind, but the line end after it sets it right. */
  lemma {:induction false} CommentPositionTrue(p: Position, s: string)
    requires IsComment(s)
    ensures
      var believed, actual := SkipPosition(p, s), After(p, s[..SkipLength(s)]);
      && believed.line == actual.line
      && (believed == actual <==> !EndsInComment(s))
      && (EndsInComment(s) ==> SkipLength(s) == |s|)
    decreases |s|, 0
  {
    var n, m := LineLength(s), SkipLength(s);
    LineEnds(s);
    AfterPart(p, s, n, m);
    if n == |s| {
      assert s[n..] == [] && s[n..][..0] == [];
    } else {
      CommentSkips(p, s);
      SkipPositionTrue(Past(p, '\n'), s[n + 1..]);
      AfterFirst(Position(p.line, p.column + n), s[n..], m - n);
      assert s[n..][1..] == s[n + 1..];
    }
  }

  /** A comment and the line end after it are skipped as one. */
  lemma CommentSkips(p: Position, s: string)
    requires IsComment(s) && LineLength(s) < |s|
    ensures
      var n := LineLength(s);
      && SkipLength(s) == n + 1 + SkipLength(s[n + 1..])
      && SkipPosition(p, s) == SkipPosition(Past(p, '\n'), s[n + 1..])
      && EndsInComment(s) == EndsInComment(s[n + 1..])
  {
    var n := LineLength(s);
    LineEnds(s);
    assert s[n..][0] == '\n' && s[n..][1..] == s[n + 1..];
  }

  lemma {:induction false} AfterPart(p: Position, s: string, n: nat, m: nat)
    requires n <= m <= |s| && forall i :: 0 <= i < n ==> s[i] != '\n'
    ensures After(p, s[..m]) == After(Position(p.line, p.column + n), s[n..][..m - n])
    decreases n
  {
    if n == 0 {
      assert s[0..] == s;
    } else {
      AfterFirst(p, s, m);
      AfterPart(Past(p, s[0]), s[1..], n - 1, m - 1);
      DropDrop(s, n);
    }
  }

  lemma DropDrop(s: string, n: nat)
    requires 0 < n <= |s|
    ensures s[1..][n - 1..] == s[n..]
  {
  }

  lemma PrefixSplits(s: string, n: nat, m: nat)
    requires n <= m <= |s|
    ensures s[..m] == s[..n] + s[n..][..m - n]
  {
  }

  // ----- The object

  datatype Token = Token(kind: Kind, start: nat, length: nat, at: Position)

  const START := Position(1, 1)

  /** The true position of index `i`. */
  function Actual(source: string, i: nat): Position
    requires i <= |source|
  {
    After(START, source[..i])
  }

  lemma ActualAfter(source: string, i: nat, n: nat)
    requires i + n <= |source|
    ensures Actual(source, i + n) == After(Actual(source, i), source[i..][..n])
  {
    PrefixSplits(source, i, i + n);
    AfterConcat(START, source[..i], source[i..][..n]);
  }

  /** The line ends before index `i`. */
  ghost function BreaksBefore(source: string, i: nat): set<nat>
    requires i <= |source|
  {
    set k | 0 <= k < i && source[k] == '\n'
  }

  /** The line of an index counts the line ends before it, the column the characters since the last one. */
  lemma {:induction false} TruePosition(source: string, i: nat) returns (start: nat)
    requires i <= |source|
    ensures start <= i && (start == 0 || source[start - 1] == '\n') && '\n' !in source[start..i]
    ensures Actual(source, i) == Position(1 + |BreaksBefore(source, i)|, 1 + i - start)
    decreases i
  {
    if i == 0 {
      start := 0;
      assert source[..0] == [] && BreaksBefore(source, 0) == {};
    } else {
      var n := i - 1;
      start := TruePosition(source, n);
      ActualAfter(source, n, 1);
      assert source[n..][..1] == [source[n]] && [source[n]][1..] == [];
      if source[n] == '\n' {
        assert BreaksBefore(source, i) == BreaksBefore(source, n) + {n};
        start := i;
      } else {
        assert BreaksBefore(source, i) == BreaksBefore(source, n);
        assert source[start..i] == source[start..n] + [source[n]];
      }
    }
  }

  class Lexer {
    const source: Source
    var current: nat
    var line: nat
    var column: nat
    var errors: seq<Position>   // the positions of invalid characters so far

    /** The line is always the true one, the column as long as something is left to read. */
    ghost predicate Valid()
      reads this
    {
      && current <= |source| && line == Actual(source, current).line
      && (current < |source| ==> Exact())
    }

    ghost predicate Exact()
      reads this
      requires current <= |source|
    {
      Position(line, column) == Actual(source, current)
    }

    constructor (source: Source)
      ensures Valid() && Exact() && this.source == source && current == 0 && errors == []
    {
      this.source := source;
      current, line, column, errors := 0, 1, 1, [];
    }

    /** The character under the cursor, or the terminator. */
    function Peek(): char
      reads this
    {
      if current < |source| then source[current] else '\0'
    }

    method SkipWhitespace()
      requires current <= |source|
      modifies this
      ensures old(current) <= current <= |source| && errors == old(errors)
      ensures current == old(current) + SkipLength(source[old(current)..])
      ensures Position(line, column) == SkipPosition(old(Position(line, column)), source[old(current)..])
    {
      ghost var i := current;
      var done := false;
      while Peek() != '\0' && !done
        invariant i <= current <= |source| && errors == old(errors)
        invariant SkipLength(source[i..]) == current - i + SkipLength(source[current..])
        invariant SkipPosition(old(Position(line, column)), source[i..])
                  == SkipPosition(Position(line, column), source[current..])
        invariant done ==> SkipLength(source[current..]) == 0
        invariant done ==> Position(line, column) == SkipPosition(Position(line, column), source[current..])
        decreases |source| - current, !done
      {
        done := SkipOne();
      }
      assert current == |source| ==> source[current..] == [];
    }

    /** One turn of the loop: a blank, a line end, a comment, or nothing more to skip. */
    method SkipOne() returns (done: bool)
      requires current < |source|
      modifies this`current, this`line, this`column
      ensures old(current) <= current <= |source| && (done <==> current == old(current))
      ensures SkipLength(source[old(current)..]) == current - old(current) + SkipLength(source[current..])
      ensures SkipPosition(old(Position(line, column)), source[old(current)..])
              == SkipPosition(Position(line, column), source[current..])
      ensures done ==> SkipLength(source[current..]) == 0 && unchanged(this)
      ensures done ==> Position(line, column) == SkipPosition(Position(line, column), source[current..])
    {
      ghost var rest := source[current..];
      assert rest[0] == source[current] && rest[1..] == source[current + 1..];
      done := false;
      if source[current] == ' ' || source[current] == '\t' || source[current] == '\r' {
        column, current := column + 1, current + 1;
      } else if source[current] == '\n' {
        line, column, current := line + 1, 1, current + 1;
      } else if source[current] == '/' && current + 1 < |source| && source[current + 1] == '/' {
        SkipComment();
      } else {
        done := true;
      }
    }

    method SkipComment()
      requires current <= |source| && IsComment(source[current..])
      modifies this`current
      ensures old(current) < current <= |source|
      ensures current == old(current) + LineLength(source[old(current)..])
      ensures source[current..] == source[old(current)..][LineLength(source[old(current)..])..]
    {
      ghost var rest := source[current..];
      current := current + 2;
      assert LineLength(rest) == 1 + LineLength(rest[1..]) == 2 + LineLength(rest[1..][1..]);
      assert rest[1..][1..] == source[current..];
      while Peek() != '\0' && Peek() != '\n'
        invariant old(current) + 2 <= current <= |source|
        invariant LineLength(rest) == current - old(current) + LineLength(source[current..])
        decreases |source| - current
      {
        assert source[current..][1..] == source[current + 1..];
        current := current + 1;
      }
    }

    method NextToken() returns (token: Token)
      requires Valid()
      modifies this
      ensures Valid() && old(current) <= token.start <= current <= |source|
      ensures token.start == old(current) + SkipLength(source[old(current)..])
      ensures current == token.start + token.length && token.at.line == Actual(source, token.start).line
      ensures token.kind == Eof <==> token.start == |source|
      ensures token.kind == Eof ==> token.length == 0
      ensures token.start < |source| ==>
        && token.length == TokenLength(source[token.start..])
        && Located(source, token, source[token.start..current]) && Exact()
      ensures errors == old(errors) + if token.kind == Error then [token.at] else []
      ensures old(Exact()) && token.kind == Eof ==>
        (token.at == Actual(source, token.start) <==> !EndsInComment(source[old(current)..]))
    {
      ghost var i, rest := current, source[current..];
      SkipStops(rest);
      SkipPositionTrue(Position(line, column), rest);
      ActualAfter(source, current, SkipLength(rest));
      SkipWhitespace();
      token := Token(Eof, current, 0, Position(line, column));
      if Peek() == '\0' { return; }
      token := ReadToken();
    }

    /** The token under the cursor. */
    method ReadToken() returns (token: Token)
      requires Valid() && Exact() && current < |source|
      requires !IsBlank(source[current])
      modifies this
      ensures Valid() && Exact() && token.start == old(current) && token.at == Actual(source, token.start)
      ensures token.length == TokenLength(source[token.start..]) && current == token.start + token.length
      ensures token.kind == KindOf(source[token.start..current])
      ensures errors == old(errors) + if token.kind == Error then [token.at] else []
    {
      var start, at := current, Position(line, column);
      ghost var rest := source[start..];
      ghost var n := TokenLength(rest);
      var c := source[current];
      TokenOnOneLine(rest);
      ActualAfter(source, start, n);
      AfterLine(Actual(source, start), rest[..n]);
      assert source[start..start + n] == rest[..n];
      if IsAlpha(c) {
        Advance(false);
        var kind := CheckKeyword(source[start..current]);
        token := Token(kind, start, current - start, at);
      } else if IsDigit(c) {
        Advance(true);
        token := Token(Integer, start, current - start, at);
      } else {
        current, column := current + 1, column + 1;
        var kind := match c
          case '{' => LBrace
          case '}' => RBrace
          case ':' => Colon
          case ';' => Semicolon
          case '.' => Dot
          case _ => Error;
        token := Token(kind, start, 1, at);
        if kind == Error {
          errors := errors + [at];
        }
      }
    }

    /** Consumes the first character and the run after it. */
    method Advance(numeric: bool)
      requires current < |source| && InRun(source[current], numeric)
      modifies this`current, this`column
      ensures old(current) < current <= |source|
      ensures current == old(current) + RunLength(source[old(current)..], numeric)
      ensures column == old(column) + current - old(current)
    {
      ghost var i, rest := current, source[current..];
      assert rest[1..] == source[current + 1..];
      current, column := current + 1, column + 1;
      while InRun(Peek(), numeric)
        invariant i < current <= |source| && column == old(column) + current - i
        invariant RunLength(rest, numeric) == current - i + RunLength(source[current..], numeric)
        decreases |source| - current
      {
        assert source[current..][1..] == source[current + 1..];
        current, column := current + 1, column + 1;
      }
    }
  }

  /** A token never contains a line end, so it moves the column by its length. */
  lemma TokenOnOneLine(s: string)
    requires s != [] && !IsBlank(s[0])
    ensures forall i :: 0 <= i < TokenLength(s) ==> s[i] != '\n'
  {
    TokenIsMaximal(s);
  }

  method CheckKeyword(lexeme: string) returns (kind: Kind)
    ensures kind == if lexeme in Keywords() then Keyword(lexeme) else Identifier
  {
    for i := 0 to |Keywords()|
      invariant lexeme !in Keywords()[..i]
    {
      if |Keywords()[i]| == |lexeme| && Keywords()[i] == lexeme {
        return Keyword(lexeme);
      }
    }
    return Identifier;
  }

  lemma LexemesStep(source: string, i: nat, start: nat, end: nat)
    requires i <= start <= end <= |source| && start == i + SkipLength(source[i..])
    requires if start == |source| then end == start else end == start + TokenLength(source[start..])
    ensures Lexemes(source[i..]) == if start == |source| then [] else [source[start..end]] + Lexemes(source[end..])
  {
    TailOfTail(source, i, start);
    TailSplits(source, start, end);
    LexemesAt(source[i..], source[start..], source[start..end], source[end..]);
  }

  lemma LexemesAt(s: string, t: string, text: string, rest: string)
    requires t == s[SkipLength(s)..] && (t != [] ==> text == t[..TokenLength(t)] && rest == t[TokenLength(t)..])
    ensures Lexemes(s) == if t == [] then [] else [text] + Lexemes(rest)
  {
    LexemesUnfold(s, t);
  }

  lemma TailOfTail(s: string, i: nat, start: nat)
    requires i <= start <= |s|
    ensures s[i..][start - i..] == s[start..]
  {
  }

  lemma TailSplits(s: string, start: nat, end: nat)
    requires start <= end <= |s|
    ensures s[start..][..end - start] == s[start..end] && s[start..][end - start..] == s[end..]
  {
  }

  /** A token carries the kind and the true position of its text. */
  ghost predicate Located(source: string, token: Token, text: string) {
    && token.start + token.length <= |source| && text != []
    && source[token.start..token.start + token.length] == text
    && token.kind == KindOf(text) && token.at == Actual(source, token.start)
  }

  ghost predicate AllLocated(source: string, tokens: seq<Token>, texts: seq<string>) {
    |tokens| == |texts| && forall i :: 0 <= i < |tokens| ==> Located(source, tokens[i], texts[i])
  }

  /** No token reaches into a later one, or beyond `end`. */
  ghost predicate Apart(tokens: seq<Token>, end: nat) {
    && (forall i :: 0 <= i < |tokens| ==> tokens[i].start + tokens[i].length <= end)
    && (forall i, j :: 0 <= i < j < |tokens| ==> tokens[i].start + tokens[i].length <= tokens[j].start)
  }

  lemma AppendShifts(a: seq<string>, x: string, b: seq<string>)
    ensures a + ([x] + b) == (a + [x]) + b
  {
  }

  lemma OneMore(source: string, tokens: seq<Token>, texts: seq<string>, end: nat, token: Token, text: string)
    requires AllLocated(source, tokens, texts) && Apart(tokens, end) && end <= token.start
    requires Located(source, token, text)
    ensures AllLocated(source, tokens + [token], texts + [text])
    ensures Apart(tokens + [token], token.start + token.length)
  {
  }

  /** Reading on from `i` to `end` moves one text over. */
  lemma TextMoves(source: string, texts: seq<string>, i: nat, start: nat, end: nat)
    requires i <= start < end <= |source| && start == i + SkipLength(source[i..])
    requires end == start + TokenLength(source[start..])
    ensures (texts + [source[start..end]]) + Lexemes(source[end..]) == texts + Lexemes(source[i..])
  {
    LexemesStep(source, i, start, end);
    AppendShifts(texts, source[start..end], Lexemes(source[end..]));
  }

  /** One call of the driver's loop; `texts` are those of the tokens so far. */
  method Scan(lexer: Lexer, tokens: seq<Token>, ghost texts: seq<string>)
    returns (more: bool, tokens': seq<Token>, ghost texts': seq<string>)
    requires lexer.Valid() && AllLocated(lexer.source, tokens, texts) && Apart(tokens, lexer.current)
    modifies lexer
    ensures lexer.Valid() && AllLocated(lexer.source, tokens', texts') && Apart(tokens', lexer.current)
    ensures texts' + Lexemes(lexer.source[lexer.current..]) == texts + Lexemes(lexer.source[old(lexer.current)..])
    ensures old(lexer.current) <= lexer.current
    ensures if more then old(lexer.current) < lexer.current else Lexemes(lexer.source[lexer.current..]) == []
  {
    ghost var i := lexer.current;
    var token := lexer.NextToken();
    more := token.kind != Eof;
    if more {
      OneMore(lexer.source, tokens, texts, i, token, lexer.source[token.start..lexer.current]);
      TextMoves(lexer.source, texts, i, token.start, lexer.current);
      tokens', texts' := tokens + [token], texts + [lexer.source[token.start..lexer.current]];
    } else {
      tokens', texts' := tokens, texts;
      LexemesStep(lexer.source, i, token.start, lexer.current);
      LexemesStep(lexer.source, lexer.current, lexer.current, lexer.current);
    }
  }

  /** Repeated calls reach the end and yield exactly the tokens of the source, in order and truly located. */
  method Tokenize(source: Source) returns (tokens: seq<Token>)
    ensures |tokens| <= |source|
    ensures AllLocated(source, tokens, Lexemes(source)) && Apart(tokens, |source|)
  {
    TokensAreFew(source);
    var lexer := new Lexer(source);
    ghost var texts := [];
    tokens := [];
    assert source[0..] == source && texts + Lexemes(source) == Lexemes(source);
    var more := true;
    while more
      invariant fresh(lexer) && lexer.Valid() && lexer.source == source
      invariant texts + Lexemes(source[lexer.current..]) == Lexemes(source)
      invariant AllLocated(source, tokens, texts) && Apart(tokens, lexer.current)
      invariant !more ==> Lexemes(source[lexer.current..]) == []
      decreases |source| - lexer.current, more
    {
      more, tokens, texts := Scan(lexer, tokens, texts);
    }
    assert texts + [] == texts;
  }
}
