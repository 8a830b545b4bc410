/** The Vyomafile parser (crates/vyoma-build/src/parser.rs): lines, instructions and the quote-aware tokenizer, with a
    printer and the round trip between them. JSON argument arrays are read by an external parser, an input here. */
module Vyomafile {
  import opened Outcomes
  import opened Text

  datatype Instruction =
    | From(image: string)
    | Run(command: string)
    | Copy(src: string, dst: string)
    | Cmd(args: seq<string>)
    | Entrypoint(args: seq<string>)
    | Env(key: string, value: string)
    | Workdir(path: string)
    | VmMeasuredBoot

  datatype ParseError =
    | MissingArgument(keyword: string, line: nat)
    | CopyArity(line: nat)
    | EnvFormat(line: nat)
    | UnexpectedArgument(line: nat)
    | UnknownInstruction(name: string, line: nat)
    | BadJson

  /** Reads a JSON array of strings. */
  type JsonArray = string -> Option<seq<string>>

  // ---------- The tokenizer ----------

  datatype Scanner = Scanner(result: seq<string>, current: string, inQuotes: bool, quoteChar: char)

  const START := Scanner([], "", false, '"')

  function Flush(t: Scanner): seq<string> {
    if t.current != "" then t.result + [t.current] else t.result
  }

  predicate IsQuote(c: char) { c == '"' || c == '\'' }

  function Next(t: Scanner, ch: char): Scanner {
    if IsQuote(ch) && !t.inQuotes then t.(inQuotes := true, quoteChar := ch)
    else if IsQuote(ch) && t.inQuotes && ch == t.quoteChar then t.(inQuotes := false)
    else if ch == ' ' && !t.inQuotes then t.(result := Flush(t), current := "")
    else t.(current := t.current + [ch])
  }

  function Scan(t: Scanner, s: string): Scanner
    decreases |s|
  {
    if s == "" then t else Scan(Next(t, s[0]), s[1..])
  }

  function Tokenize(s: string): seq<string> { Flush(Scan(START, s)) }

  ghost predicate NoEmpty(tokens: seq<string>) {
    forall i :: 0 <= i < |tokens| ==> tokens[i] != ""
  }

  /** The loop of `parse_shell_args`; no token it produces is empty. */
  method ShellTokens(args: string) returns (result: seq<string>)
    ensures result == Tokenize(args)
    ensures NoEmpty(result)
  {
    result := [];
    var current, inQuotes, quoteChar := "", false, '"';
    var k := 0;
    while k < |args|
      invariant 0 <= k <= |args|
      invariant Scan(Scanner(result, current, inQuotes, quoteChar), args[k..]) == Scan(START, args)
      invariant NoEmpty(result)
    {
      var ch := args[k];
      assert args[k..][1..] == args[k + 1..];
      if IsQuote(ch) && !inQuotes {
        inQuotes := true;
        quoteChar := ch;
      } else if IsQuote(ch) && inQuotes && ch == quoteChar {
        inQuotes := false;
      } else if ch == ' ' && !inQuotes {
        if current != "" {
          result := result + [current];
          current := "";
        }
      } else {
        current := current + [ch];
      }
      k := k + 1;
    }
    if current != "" {
      result := result + [current];
    }
  }

  // ---------- Spelling tokens for the tokenizer ----------

  /** Part of a token: bare text, or text between one kind of quotes. */
  datatype Piece = Bare(text: string) | Quoted(quote: char, text: string)

  predicate ValidPiece(p: Piece) {
    match p
    case Bare(text) => '"' !in text && '\'' !in text && ' ' !in text
    case Quoted(q, text) => IsQuote(q) && q !in text
  }

  function PrintPiece(p: Piece): string {
    match p
    case Bare(text) => text
    case Quoted(q, text) => [q] + (text + [q])
  }

  /** A token spelled as adjacent pieces, after some spaces. */
  datatype Spelled = Spelled(spaces: nat, pieces: seq<Piece>)

  function Spaces(n: nat): string { seq(n, i => ' ') }

  function PrintPieces(ps: seq<Piece>): string {
    if ps == [] then "" else PrintPiece(ps[0]) + PrintPieces(ps[1..])
  }

  function TextOf(ps: seq<Piece>): string {
    if ps == [] then "" else ps[0].text + TextOf(ps[1..])
  }

  function PrintSpelled(ts: seq<Spelled>): string {
    if ts == [] then "" else Spaces(ts[0].spaces) + (PrintPieces(ts[0].pieces) + PrintSpelled(ts[1..]))
  }

  predicate ValidPieces(ps: seq<Piece>) { forall i :: 0 <= i < |ps| ==> ValidPiece(ps[i]) }

  /** All pieces are well quoted, and tokens after the first are set off by a space. */
  predicate ValidSpelling(ts: seq<Spelled>) {
    forall i :: 0 <= i < |ts| ==> ValidPieces(ts[i].pieces) && (i > 0 ==> ts[i].spaces > 0)
  }

  /** The tokens spelled, without empty ones. */
  function NonEmptyTexts(ts: seq<Spelled>): seq<string> {
    if ts == [] then []
    else OneToken(TextOf(ts[0].pieces)) + NonEmptyTexts(ts[1..])
  }

  lemma {:induction false} ScanConcat(t: Scanner, a: string, b: string)
    ensures Scan(t, a + b) == Scan(Scan(t, a), b)
    decreases |a|
  {
    if a == "" {
      assert a + b == b;
    } else {
      assert (a + b)[1..] == a[1..] + b;
      ScanConcat(Next(t, a[0]), a[1..], b);
    }
  }

  lemma ScanThen(t: Scanner, a: string, u: Scanner, b: string, v: Scanner)
    requires Scan(t, a) == u && Scan(u, b) == v
    ensures Scan(t, a + b) == v
  {
    ScanConcat(t, a, b);
  }

  /** Text without the closing quote, read inside quotes, is kept verbatim, spaces and other quotes included. */
  lemma {:induction false} ScanPlain(t: Scanner, s: string)
    requires if t.inQuotes then t.quoteChar !in s else '"' !in s && '\'' !in s && ' ' !in s
    ensures Scan(t, s) == t.(current := t.current + s)
    decreases |s|
  {
    if s == "" {
      assert t.current + s == t.current;
    } else {
      assert s[0] in s;
      var u := Next(t, s[0]);
      ScanPlain(u, s[1..]);
      assert t.current + [s[0]] + s[1..] == t.current + s;
    }
  }

  lemma ScanOne(t: Scanner, c: char)
    ensures Scan(t, [c]) == Next(t, c)
  {
    assert [c][1..] == "";
  }

  function QuoteAfter(p: Piece, q: char): char { if p.Quoted? then p.quote else q }

  lemma ScanPiece(t: Scanner, p: Piece)
    requires ValidPiece(p) && !t.inQuotes
    ensures Scan(t, PrintPiece(p)) == t.(current := t.current + p.text, quoteChar := QuoteAfter(p, t.quoteChar))
  {
    match p
    case Bare(text) => ScanPlain(t, text);
    case Quoted(q, text) =>
      var inside := t.(inQuotes := true, quoteChar := q);
      var full := inside.(current := t.current + text);
      ScanOne(t, q);
      ScanPlain(inside, text);
      ScanOne(full, q);
      ScanConcat(inside, text, [q]);
      ScanConcat(t, [q], text + [q]);
  }

  /** Adjacent pieces extend the current token by their texts. */
  lemma {:induction false} ScanPieces(t: Scanner, ps: seq<Piece>) returns (q: char)
    requires ValidPieces(ps) && !t.inQuotes
    ensures Scan(t, PrintPieces(ps)) == t.(current := t.current + TextOf(ps), quoteChar := q)
    decreases |ps|
  {
    if ps == [] {
      q := t.quoteChar;
      assert t.current + "" == t.current;
    } else {
      var p, rest := ps[0], ps[1..];
      ScanPiece(t, p);
      var u := t.(current := t.current + p.text, quoteChar := QuoteAfter(p, t.quoteChar));
      q := ScanPieces(u, rest);
      var v := t.(current := t.current + p.text + TextOf(rest), quoteChar := q);
      ScanThen(t, PrintPiece(p), u, PrintPieces(rest), v);
      Assoc(t.current, p.text, TextOf(rest));
    }
  }

  lemma {:induction false} ScanSpaces(t: Scanner, n: nat)
    requires !t.inQuotes && (n > 0 || t.current == "")
    ensures Scan(t, Spaces(n)) == t.(result := Flush(t), current := "")
    decreases n
  {
    if n > 0 {
      var u := Next(t, ' ');
      assert Spaces(n)[1..] == Spaces(n - 1);
      ScanSpaces(u, n - 1);
    }
  }

  lemma {:induction false} ScanSpelled(t: Scanner, ts: seq<Spelled>)
    requires !t.inQuotes && ValidSpelling(ts)
    requires ts != [] && ts[0].spaces == 0 ==> t.current == ""
    ensures Flush(Scan(t, PrintSpelled(ts))) == Flush(t) + NonEmptyTexts(ts)
    decreases |ts|
  {
    if ts == [] {
      assert Flush(t) + [] == Flush(t);
    } else {
      var x, rest := ts[0], ts[1..];
      var a, b := ScanToken(t, x);
      forall i | 0 <= i < |rest|
        ensures ValidPieces(rest[i].pieces) && rest[i].spaces > 0 { assert rest[i] == ts[i + 1]; }
      ScanSpelled(b, rest);
      var v := Scan(b, PrintSpelled(rest));
      ScanThen(a, PrintPieces(x.pieces), b, PrintSpelled(rest), v);
      ScanThen(t, Spaces(x.spaces), a, PrintPieces(x.pieces) + PrintSpelled(rest), v);
      Assoc(Flush(t), OneToken(TextOf(x.pieces)), NonEmptyTexts(rest));
    }
  }

  function OneToken(text: string): seq<string> { if text == "" then [] else [text] }

  lemma ScanToken(t: Scanner, x: Spelled) returns (a: Scanner, b: Scanner)
    requires !t.inQuotes && ValidPieces(x.pieces) && (x.spaces == 0 ==> t.current == "")
    ensures Scan(t, Spaces(x.spaces)) == a && Scan(a, PrintPieces(x.pieces)) == b
    ensures !b.inQuotes && Flush(b) == Flush(t) + OneToken(TextOf(x.pieces))
  {
    ScanSpaces(t, x.spaces);
    a := t.(result := Flush(t), current := "");
    var q := ScanPieces(a, x.pieces);
    var text := TextOf(x.pieces);
    b := a.(current := "" + text, quoteChar := q);
    assert "" + text == text;
  }

  /** Any spelling of a list of tokens, however it mixes bare and quoted pieces and spaces, is read as the tokens'
      texts; tokens whose text is empty disappear. */
  lemma TokenizeSpelled(ts: seq<Spelled>)
    requires ValidSpelling(ts)
    ensures Tokenize(PrintSpelled(ts)) == NonEmptyTexts(ts)
  {
    ScanSpelled(START, ts);
    assert [] + NonEmptyTexts(ts) == NonEmptyTexts(ts);
  }

  // ---------- Printing arguments ----------

  /** Pieces for any text at all: double quotes unless it contains one, and those singly quoted on their own. */
  function SpellText(s: string): (ps: seq<Piece>)
    ensures ps != [] && ps[0].Quoted?
    decreases |s|
  {
    var i := IndexOf(s, '"');
    if i == |s| then [Quoted('"', s)]
    else [Quoted('"', s[..i])] + ([Quoted('\'', "\"")] + SpellText(s[i + 1..]))
  }

  lemma SpellsCons(p: Piece, ps: seq<Piece>)
    requires ValidPiece(p) && ValidPieces(ps)
    ensures ValidPieces([p] + ps) && TextOf([p] + ps) == p.text + TextOf(ps)
  {
    assert ([p] + ps)[1..] == ps;
  }

  lemma {:induction false} SpellTextSpells(s: string)
    ensures ValidPieces(SpellText(s)) && TextOf(SpellText(s)) == s
    decreases |s|
  {
    var i := IndexOf(s, '"');
    if i == |s| {
      SpellsCons(Quoted('"', s), []);
      assert s + "" == s && [Quoted('"', s)] + [] == [Quoted('"', s)];
    } else {
      SpellTextSpells(s[i + 1..]);
      SpellsQuote(s, i, SpellText(s[i + 1..]));
    }
  }

  lemma SpellsQuote(s: string, i: nat, rest: seq<Piece>)
    requires i < |s| && s[i] == '"' && '"' !in s[..i] && ValidPieces(rest) && TextOf(rest) == s[i + 1..]
    ensures var ps := [Quoted('"', s[..i])] + ([Quoted('\'', "\"")] + rest); ValidPieces(ps) && TextOf(ps) == s
  {
    SpellsCons(Quoted('\'', "\""), rest);
    SpellsCons(Quoted('"', s[..i]), [Quoted('\'', "\"")] + rest);
    SplitAtQuote(s, i);
  }

  lemma SplitAtQuote(s: string, i: nat)
    requires i < |s| && s[i] == '"'
    ensures s == s[..i] + ("\"" + s[i + 1..])
  {
  }

  function SpellArgs(args: seq<string>): (ts: seq<Spelled>)
    ensures |ts| == |args|
    ensures forall i :: 0 <= i < |ts| ==> ts[i] == Spelled(if i == 0 then 0 else 1, SpellText(args[i]))
  {
    seq(|args|, i requires 0 <= i < |args| => Spelled(if i == 0 then 0 else 1, SpellText(args[i])))
  }

  function PrintArgs(args: seq<string>): string { PrintSpelled(SpellArgs(args)) }

  function NonEmpty(args: seq<string>): seq<string> {
    if args == [] then [] else OneToken(args[0]) + NonEmpty(args[1..])
  }

  lemma {:induction false} TextsSpelled(ts: seq<Spelled>, args: seq<string>)
    requires |ts| == |args| && forall i :: 0 <= i < |ts| ==> TextOf(ts[i].pieces) == args[i]
    ensures NonEmptyTexts(ts) == NonEmpty(args)
    decreases |ts|
  {
    if ts != [] { TextsSpelled(ts[1..], args[1..]); }
  }

  lemma {:induction false} NonEmptyIdentity(args: seq<string>)
    ensures NonEmpty(args) == args <==> NoEmpty(args)
    ensures |NonEmpty(args)| <= |args|
  {
    if args != [] {
      NonEmptyIdentity(args[1..]);
      assert args == [args[0]] + args[1..];
      if NoEmpty(args) {
        forall i | 0 <= i < |args[1..]| ensures args[1..][i] != "" { assert args[i + 1] != ""; }
      } else if args[0] != "" {
        var i :| 0 <= i < |args| && args[i] == "";
        assert args[1..][i - 1] == "";
        assert NonEmpty(args)[1..] == NonEmpty(args[1..]);
      }
    }
  }

  /** Printed argument lists are read back exactly when they contain no empty argument. */
  lemma PrintedArgsRoundTripIff(args: seq<string>)
    ensures Tokenize(PrintArgs(args)) == NonEmpty(args)
    ensures Tokenize(PrintArgs(args)) == args <==> NoEmpty(args)
  {
    var ts := SpellArgs(args);
    forall i | 0 <= i < |ts| ensures ValidPieces(ts[i].pieces) && TextOf(ts[i].pieces) == args[i] {
      SpellTextSpells(args[i]);
    }
    TokenizeSpelled(ts);
    TextsSpelled(ts, args);
    NonEmptyIdentity(args);
  }

  // ---------- Instructions ----------

  /** The first position of a whitespace character, or the length. */
  function FirstSpace(s: string): (i: nat)
    ensures i <= |s|
    ensures forall j :: 0 <= j < i ==> !IsWhitespace(s[j])
    ensures i < |s| ==> IsWhitespace(s[i])
  {
    if s == "" || IsWhitespace(s[0]) then 0 else 1 + FirstSpace(s[1..])
  }

  lemma {:induction false} TrimStartShape(s: string)
    ensures |TrimStart(s)| <= |s|
    ensures TrimStart(s) == "" || !IsWhitespace(TrimStart(s)[0])
  {
    if s != "" && IsWhitespace(s[0]) { TrimStartShape(s[1..]); }
  }

  /** `split_whitespace`. */
  function Words(s: string): seq<string>
    decreases |s|
  {
    TrimStartShape(s);
    var t := TrimStart(s);
    if t == "" then [] else [t[..FirstSpace(t)]] + Words(t[FirstSpace(t)..])
  }

  predicate LooksLikeJson(args: string) {
    args != "" && args[0] == '[' && args[|args| - 1] == ']'
  }

  function ShellArgs(args: string, json: JsonArray): Result<seq<string>, ParseError> {
    if LooksLikeJson(Trim(args)) then
      match json(Trim(args)) case Some(parsed) => Ok(parsed) case None => Err(BadJson)
    else Ok(Tokenize(args))
  }

  function ParseLine(line: string, n: nat, json: JsonArray): Result<Instruction, ParseError> {
    var i := FirstSpace(line);
    ParseInstruction(Upper(line[..i]), if i < |line| then Trim(line[i + 1..]) else "", n, json)
  }

  function ParseInstruction(instruction: string, args: string, n: nat, json: JsonArray)
    : Result<Instruction, ParseError>
  {
    if instruction == "FROM" then
      if args == "" then Err(MissingArgument("FROM", n)) else Ok(From(args))
    else if instruction == "RUN" then
      if args == "" then Err(MissingArgument("RUN", n)) else Ok(Run(args))
    else if instruction == "COPY" then
      var words := Words(args);
      if |words| != 2 then Err(CopyArity(n)) else Ok(Copy(words[0], words[1]))
    else if instruction == "CMD" then
      match ShellArgs(args, json) case Ok(a) => Ok(Cmd(a)) case Err(e) => Err(e)
    else if instruction == "ENTRYPOINT" then
      match ShellArgs(args, json) case Ok(a) => Ok(Entrypoint(a)) case Err(e) => Err(e)
    else if instruction == "ENV" then
      match SplitOnce(args, '=')
      case Some(parts) => Ok(Env(Trim(parts.0), Trim(parts.1)))
      case None => Err(EnvFormat(n))
    else if instruction == "WORKDIR" then
      if args == "" then Err(MissingArgument("WORKDIR", n)) else Ok(Workdir(args))
    else if instruction == "VM_MEASURED_BOOT" then
      if args != "" then Err(UnexpectedArgument(n)) else Ok(VmMeasuredBoot)
    else Err(UnknownInstruction(instruction, n))
  }

  // ---------- Files ----------

  /** `str::lines`: pieces ended by `\n`, without a final empty one, and without the `\r` of a `\r\n`. */
  function Lines(s: string): seq<string>
    decreases |s|
  {
    if s == "" then []
    else
      var i := IndexOf(s, '\n');
      if i == |s| then [s]
      else [if i > 0 && s[i - 1] == '\r' then s[..i - 1] else s[..i]] + Lines(s[i + 1..])
  }

  predicate Skipped(line: string) { line == "" || line[0] == '#' }

  /** The instructions of the lines, numbered from `n`; the first bad line is the error. */
  function ParseLines(lines: seq<string>, n: nat, json: JsonArray): Result<seq<Instruction>, ParseError> {
    if lines == [] then Ok([])
    else
      var line := Trim(lines[0]);
      if Skipped(line) then ParseLines(lines[1..], n + 1, json)
      else
        match ParseLine(line, n, json)
        case Err(e) => Err(e)
        case Ok(x) => Prepend([x], ParseLines(lines[1..], n + 1, json))
  }

  /** Instructions already read, followed by the outcome of the rest. */
  function Prepend(done: seq<Instruction>, r: Result<seq<Instruction>, ParseError>)
    : Result<seq<Instruction>, ParseError>
  {
    match r case Err(e) => Err(e) case Ok(rest) => Ok(done + rest)
  }

  lemma PrependNone(r: Result<seq<Instruction>, ParseError>)
    ensures Prepend([], r) == r
  {
    if r.Ok? { assert [] + r.value == r.value; }
  }

  lemma PrependMore(done: seq<Instruction>, x: Instruction, r: Result<seq<Instruction>, ParseError>)
    ensures Prepend(done, Prepend([x], r)) == Prepend(done + [x], r)
  {
    if r.Ok? { Assoc(done, [x], r.value); }
  }

  // ---------- Exactly which lines are accepted ----------

  lemma FirstSpaceIs(s: string, i: nat)
    requires i <= |s| && (forall j :: 0 <= j < i ==> !IsWhitespace(s[j])) && (i < |s| ==> IsWhitespace(s[i]))
    ensures FirstSpace(s) == i
  {
  }

  predicate Word(s: string) { s != "" && forall i :: 0 <= i < |s| ==> !IsWhitespace(s[i]) }

  predicate StartsBlank(s: string) { s == "" || IsWhitespace(s[0]) }

  lemma WordsSkip(w: string, s: string)
    requires AllWhitespace(w)
    ensures Words(w + s) == Words(s) && Words(w) == []
  {
    TrimStartSkips(w, s);
    TrimStartSkips(w, "");
    EmptyUnit(w);
  }

  lemma WordsStep(a: string, rest: string)
    requires Word(a) && StartsBlank(rest)
    ensures Words(a + rest) == [a] + Words(rest)
  {
    var s := a + rest;
    assert TrimStart(s) == s;
    FirstSpaceIs(s, |a|);
    assert s[..|a|] == a && s[|a|..] == rest;
  }

  lemma WordsUnfold(s: string) returns (w: string, rest: string)
    ensures AllWhitespace(w)
    ensures Words(s) == [] ==> s == w
    ensures Words(s) != [] ==> s == w + (Words(s)[0] + rest) && Word(Words(s)[0]) && StartsBlank(rest)
    ensures Words(s) != [] ==> Words(rest) == Words(s)[1..]
  {
    w := TrimStartSplits(s);
    var t := TrimStart(s);
    rest := t[FirstSpace(t)..];
    assert t == t[..FirstSpace(t)] + rest;
    EmptyUnit(w);
  }

  /** Two words, with whitespace between them and perhaps around them. */
  ghost predicate TwoWords(args: string, a: string, b: string) {
    && Word(a) && Word(b)
    && exists before, gap, after :: AllWhitespace(before) && AllWhitespace(gap) && AllWhitespace(after) && gap != ""
         && args == before + (a + (gap + (b + after)))
  }

  lemma SaysTwoWords(args: string, a: string, b: string)
    requires TwoWords(args, a, b)
    ensures Words(args) == [a, b]
  {
    var before, gap, after :| AllWhitespace(before) && AllWhitespace(gap) && AllWhitespace(after) && gap != ""
      && args == before + (a + (gap + (b + after)));
    WordsSkip(before, a + (gap + (b + after)));
    assert (gap + (b + after))[0] == gap[0];
    WordsStep(a, gap + (b + after));
    WordsSkip(gap, b + after);
    WordsStep(b, after);
    WordsSkip(after, "");
  }

  lemma WordsAreTwo(args: string)
    requires |Words(args)| == 2
    ensures TwoWords(args, Words(args)[0], Words(args)[1])
  {
    var before, rest := WordsUnfold(args);
    var gap, more := WordsUnfold(rest);
    var after, _ := WordsUnfold(more);
    var b := Words(args)[1];
    assert rest == gap + (b + more);
    GapNeeded(gap, b, more);
  }

  lemma GapNeeded(gap: string, b: string, more: string)
    ensures Word(b) && StartsBlank(gap + (b + more)) ==> gap != ""
  {
    assert b != "" ==> (b + more)[0] == b[0];
    EmptyUnit(b + more);
  }

  lemma TwoWordsIff(args: string, a: string, b: string)
    ensures Words(args) == [a, b] <==> TwoWords(args, a, b)
  {
    if Words(args) == [a, b] { WordsAreTwo(args); }
    if TwoWords(args, a, b) { SaysTwoWords(args, a, b); }
  }

  /** The line is a keyword, and whatever follows the first whitespace, trimmed. */
  ghost predicate Divides(line: string, keyword: string, args: string) {
    && (forall i :: 0 <= i < |keyword| ==> !IsWhitespace(keyword[i]))
    && ((line == keyword && args == "")
        || exists c, rest :: IsWhitespace(c) && line == keyword + ([c] + rest) && args == Trim(rest))
  }

  function KeywordPart(line: string): string { line[..FirstSpace(line)] }

  function ArgumentPart(line: string): string {
    var i := FirstSpace(line);
    if i < |line| then Trim(line[i + 1..]) else ""
  }

  lemma DividedAt(keyword: string, c: char, rest: string)
    requires (forall i :: 0 <= i < |keyword| ==> !IsWhitespace(keyword[i])) && IsWhitespace(c)
    ensures KeywordPart(keyword) == keyword && ArgumentPart(keyword) == ""
    ensures KeywordPart(keyword + ([c] + rest)) == keyword && ArgumentPart(keyword + ([c] + rest)) == Trim(rest)
  {
    FirstSpaceIs(keyword, |keyword|);
    var line := keyword + ([c] + rest);
    assert line[|keyword|] == c;
    FirstSpaceIs(line, |keyword|);
    assert line[..|keyword|] == keyword && line[|keyword| + 1..] == rest;
  }

  lemma DividesIff(line: string, keyword: string, args: string)
    ensures Divides(line, keyword, args) <==> keyword == KeywordPart(line) && args == ArgumentPart(line)
  {
    var i := FirstSpace(line);
    if i < |line| { assert line == line[..i] + ([line[i]] + line[i + 1..]); }
    if Divides(line, keyword, args) {
      if line == keyword && args == "" {
        DividedAt(keyword, ' ', "");
      } else {
        var c, rest :| IsWhitespace(c) && line == keyword + ([c] + rest) && args == Trim(rest);
        DividedAt(keyword, c, rest);
      }
    }
  }

  /** A list in brackets is what the JSON reader makes of it; anything else is the list of its tokens. */
  ghost predicate Lists(args: string, json: JsonArray, list: seq<string>) {
    if args != "" && args[0] == '[' && args[|args| - 1] == ']' then json(args) == Some(list) else list == Tokenize(args)
  }

  /** A key and a value around the first equals sign, trimmed. */
  ghost predicate Assigns(args: string, key: string, value: string) {
    exists k, v :: '=' !in k && args == k + ['='] + v && key == Trim(k) && value == Trim(v)
  }

  /** The keyword, in capitals, and the trimmed arguments that state an instruction. */
  ghost predicate States(keyword: string, args: string, json: JsonArray, x: Instruction) {
    match x
    case From(image) => keyword == "FROM" && args != "" && image == args
    case Run(command) => keyword == "RUN" && args != "" && command == args
    case Copy(src, dst) => keyword == "COPY" && TwoWords(args, src, dst)
    case Cmd(list) => keyword == "CMD" && Lists(args, json, list)
    case Entrypoint(list) => keyword == "ENTRYPOINT" && Lists(args, json, list)
    case Env(key, value) => keyword == "ENV" && Assigns(args, key, value)
    case Workdir(path) => keyword == "WORKDIR" && args != "" && path == args
    case VmMeasuredBoot => keyword == "VM_MEASURED_BOOT" && args == ""
  }

  /** What is wrong with a keyword and its arguments. */
  ghost predicate Faults(keyword: string, args: string, n: nat, json: JsonArray, e: ParseError) {
    match e
    case MissingArgument(k, line) => line == n && k == keyword && keyword in {"FROM", "RUN", "WORKDIR"} && args == ""
    case CopyArity(line) => line == n && keyword == "COPY" && forall a, b :: !TwoWords(args, a, b)
    case EnvFormat(line) => line == n && keyword == "ENV" && '=' !in args
    case UnexpectedArgument(line) => line == n && keyword == "VM_MEASURED_BOOT" && args != ""
    case UnknownInstruction(name, line) =>
      && line == n && name == keyword
      && keyword !in {"FROM", "RUN", "COPY", "CMD", "ENTRYPOINT", "ENV", "WORKDIR", "VM_MEASURED_BOOT"}
    case BadJson =>
      && keyword in {"CMD", "ENTRYPOINT"}
      && args != "" && args[0] == '[' && args[|args| - 1] == ']' && json(args) == None
  }

  lemma ShellArgsIff(args: string, json: JsonArray, list: seq<string>)
    requires Trimmed(args)
    ensures ShellArgs(args, json) == Ok(list) <==> Lists(args, json, list)
    ensures ShellArgs(args, json).Err? <==>
      args != "" && args[0] == '[' && args[|args| - 1] == ']' && json(args) == None
    ensures ShellArgs(args, json).Err? ==> ShellArgs(args, json) == Err(BadJson)
  {
    TrimIsTrimmed(args);
  }

  lemma SplitOnceIff(args: string, k: string, v: string)
    ensures SplitOnce(args, '=') == Some((k, v)) <==> '=' !in k && args == k + ['='] + v
    ensures SplitOnce(args, '=') == None <==> '=' !in args
  {
    var i := IndexOf(args, '=');
    if i < |args| { assert args == args[..i] + ['='] + args[i + 1..]; }
    if '=' !in k && args == k + ['='] + v { SplitOnceJoin(k, '=', v); }
  }

  lemma EnvIff(args: string, key: string, value: string)
    ensures Assigns(args, key, value) <==>
      (SplitOnce(args, '=').Some?
       && key == Trim(SplitOnce(args, '=').value.0) && value == Trim(SplitOnce(args, '=').value.1))
  {
    if SplitOnce(args, '=').Some? {
      SplitOnceIff(args, SplitOnce(args, '=').value.0, SplitOnce(args, '=').value.1);
    }
    if k, v :| '=' !in k && args == k + ['='] + v && key == Trim(k) && value == Trim(v) {
      SplitOnceIff(args, k, v);
    }
  }

  /** The reading of one keyword agrees with what it states and what faults it has. */
  ghost predicate Agrees(keyword: string, args: string, n: nat, json: JsonArray) {
    && (forall x :: ParseInstruction(keyword, args, n, json) == Ok(x) <==> States(keyword, args, json, x))
    && (forall e :: ParseInstruction(keyword, args, n, json) == Err(e) <==> Faults(keyword, args, n, json, e))
  }

  lemma CopyAgrees(args: string, n: nat, json: JsonArray)
    ensures Agrees("COPY", args, n, json)
  {
    forall a, b ensures Words(args) == [a, b] <==> TwoWords(args, a, b) { TwoWordsIff(args, a, b); }
    if |Words(args)| == 2 {
      assert Words(args) == [Words(args)[0], Words(args)[1]];
    }
  }

  lemma ListAgrees(keyword: string, args: string, n: nat, json: JsonArray)
    requires Trimmed(args) && (keyword == "CMD" || keyword == "ENTRYPOINT")
    ensures Agrees(keyword, args, n, json)
  {
    forall list ensures ShellArgs(args, json) == Ok(list) <==> Lists(args, json, list) {
      ShellArgsIff(args, json, list);
    }
    ShellArgsIff(args, json, []);
  }

  lemma EnvStates(args: string, n: nat, json: JsonArray, x: Instruction)
    ensures States("ENV", args, json, x) <==> x.Env? && Assigns(args, x.key, x.value)
    ensures ParseInstruction("ENV", args, n, json) == Ok(x) <==>
      SplitOnce(args, '=').Some?
      && x == Env(Trim(SplitOnce(args, '=').value.0), Trim(SplitOnce(args, '=').value.1))
  {
  }

  lemma EnvFaults(args: string, n: nat, json: JsonArray, e: ParseError)
    ensures Faults("ENV", args, n, json, e) <==> e == EnvFormat(n) && '=' !in args
    ensures ParseInstruction("ENV", args, n, json) == Err(e) <==> e == EnvFormat(n) && SplitOnce(args, '=').None?
  {
  }

  lemma EnvAgrees(args: string, n: nat, json: JsonArray)
    ensures Agrees("ENV", args, n, json)
  {
    forall x ensures ParseInstruction("ENV", args, n, json) == Ok(x) <==> States("ENV", args, json, x) {
      EnvStates(args, n, json, x);
      if x.Env? { EnvIff(args, x.key, x.value); }
    }
    forall e ensures ParseInstruction("ENV", args, n, json) == Err(e) <==> Faults("ENV", args, n, json, e) {
      EnvFaults(args, n, json, e);
      SplitOnceIff(args, "", "");
    }
  }

  lemma PlainAgrees(keyword: string, args: string, n: nat, json: JsonArray)
    requires keyword == "FROM" || keyword == "RUN" || keyword == "WORKDIR" || keyword == "VM_MEASURED_BOOT"
    ensures Agrees(keyword, args, n, json)
  {
  }

  lemma UnknownAgrees(keyword: string, args: string, n: nat, json: JsonArray)
    requires keyword !in {"FROM", "RUN", "COPY", "CMD", "ENTRYPOINT", "ENV", "WORKDIR", "VM_MEASURED_BOOT"}
    ensures Agrees(keyword, args, n, json)
  {
  }

  lemma InstructionAgrees(keyword: string, args: string, n: nat, json: JsonArray)
    requires Trimmed(args)
    ensures Agrees(keyword, args, n, json)
  {
    if keyword == "COPY" {
      CopyAgrees(args, n, json);
    } else if keyword == "ENV" {
      EnvAgrees(args, n, json);
    } else if keyword == "CMD" || keyword == "ENTRYPOINT" {
      ListAgrees(keyword, args, n, json);
    } else if keyword == "FROM" || keyword == "RUN" || keyword == "WORKDIR" || keyword == "VM_MEASURED_BOOT" {
      PlainAgrees(keyword, args, n, json);
    } else {
      UnknownAgrees(keyword, args, n, json);
    }
  }

  /** A line is parsed as an instruction exactly when its keyword, in any case, and its arguments state it, and is
      rejected with an error exactly when they have that fault. */
  lemma ParseLineIff(line: string, n: nat, json: JsonArray)
    ensures forall x :: ParseLine(line, n, json) == Ok(x) <==>
      exists keyword, args :: Divides(line, keyword, args) && States(Upper(keyword), args, json, x)
    ensures forall e :: ParseLine(line, n, json) == Err(e) <==>
      exists keyword, args :: Divides(line, keyword, args) && Faults(Upper(keyword), args, n, json, e)
  {
    forall keyword, args
      ensures Divides(line, keyword, args) <==> keyword == KeywordPart(line) && args == ArgumentPart(line)
    {
      DividesIff(line, keyword, args);
    }
    var k, a := Upper(KeywordPart(line)), ArgumentPart(line);
    assert Divides(line, KeywordPart(line), a);
    ArgumentTrimmed(line);
    InstructionAgrees(k, a, n, json);
  }

  lemma ArgumentTrimmed(line: string)
    ensures Trimmed(ArgumentPart(line))
  {
    var i := FirstSpace(line);
    if i < |line| { var _, _ := TrimSplits(line[i + 1..]); }
  }

  ghost predicate LineReads(line: string, json: JsonArray, x: Instruction) {
    exists keyword, args :: Divides(Trim(line), keyword, args) && States(Upper(keyword), args, json, x)
  }

  ghost predicate LineFails(line: string, n: nat, json: JsonArray, e: ParseError) {
    exists keyword, args :: Divides(Trim(line), keyword, args) && Faults(Upper(keyword), args, n, json, e)
  }

  /** Blank or a comment, once trimmed. */
  ghost predicate SaysNothing(line: string) { Trim(line) == "" || Trim(line)[0] == '#' }

  /** The instructions are those of the lines that say something, in order; `at` is where each stands. */
  ghost predicate LinesRead(lines: seq<string>, json: JsonArray, xs: seq<Instruction>, at: seq<nat>) {
    && |at| == |xs| && (forall a, b :: 0 <= a < b < |at| ==> at[a] < at[b])
    && (forall a :: 0 <= a < |at| ==> ReadAt(lines, json, xs, at, a))
    && (forall i :: 0 <= i < |lines| && !SaysNothing(lines[i]) ==> i in at)
  }

  ghost predicate ReadAt(lines: seq<string>, json: JsonArray, xs: seq<Instruction>, at: seq<nat>, a: nat)
    requires a < |at| == |xs|
  {
    at[a] < |lines| && !SaysNothing(lines[at[a]]) && LineReads(lines[at[a]], json, xs[a])
  }

  /** The error is that of the `i`-th line, the first that says something and is no instruction. */
  ghost predicate LinesFail(lines: seq<string>, n: nat, json: JsonArray, e: ParseError, i: nat) {
    && i < |lines| && !SaysNothing(lines[i]) && LineFails(lines[i], n + i, json, e)
    && forall j :: 0 <= j < i ==> SaysNothing(lines[j]) || exists x :: LineReads(lines[j], json, x)
  }

  /** What the lines are parsed to, whatever they are. */
  ghost predicate Parses(lines: seq<string>, n: nat, json: JsonArray, r: Result<seq<Instruction>, ParseError>) {
    && (r.Ok? ==> exists at :: LinesRead(lines, json, r.value, at))
    && (r.Err? ==> exists i: nat :: LinesFail(lines, n, json, r.error, i))
  }

  lemma LineIsRead(line: string, n: nat, json: JsonArray)
    ensures var r := ParseLine(Trim(line), n, json);
      (r.Ok? ==> LineReads(line, json, r.value)) && (r.Err? ==> LineFails(line, n, json, r.error))
  {
    ParseLineIff(Trim(line), n, json);
  }

  lemma ReadOneMore(lines: seq<string>, json: JsonArray, xs: seq<Instruction>, at: seq<nat>, line: string,
                    x: Instruction)
    requires LinesRead(lines, json, xs, at) && !SaysNothing(line) && LineReads(line, json, x)
    ensures LinesRead(lines + [line], json, xs + [x], at + [|lines|])
  {
    var more, ys, bt := lines + [line], xs + [x], at + [|lines|];
    forall a | 0 <= a < |bt| ensures ReadAt(more, json, ys, bt, a) {
      if a < |at| { assert ReadAt(lines, json, xs, at, a); }
    }
    forall a, b | 0 <= a < b < |bt| ensures bt[a] < bt[b] {
      assert ReadAt(lines, json, xs, at, a);
    }
    forall i | 0 <= i < |more| && !SaysNothing(more[i]) ensures i in bt {
      if i < |lines| { assert lines[i] == more[i]; } else { assert bt[|at|] == i; }
    }
  }

  lemma ReadNothingMore(lines: seq<string>, json: JsonArray, xs: seq<Instruction>, at: seq<nat>, line: string)
    requires LinesRead(lines, json, xs, at) && SaysNothing(line)
    ensures LinesRead(lines + [line], json, xs, at)
  {
    forall a | 0 <= a < |at| ensures ReadAt(lines + [line], json, xs, at, a) {
      assert ReadAt(lines, json, xs, at, a);
    }
  }

  lemma FailsHere(lines: seq<string>, json: JsonArray, xs: seq<Instruction>, at: seq<nat>, k: nat, e: ParseError)
    requires k < |lines| && LinesRead(lines[..k], json, xs, at)
    requires !SaysNothing(lines[k]) && LineFails(lines[k], 1 + k, json, e)
    ensures LinesFail(lines, 1, json, e, k)
  {
    forall j | 0 <= j < k ensures SaysNothing(lines[j]) || exists x :: LineReads(lines[j], json, x) {
      assert lines[..k][j] == lines[j];
      if !SaysNothing(lines[j]) {
        var a :| 0 <= a < |at| && at[a] == j;
        assert ReadAt(lines[..k], json, xs, at, a);
      }
    }
  }

  /** The same lines up to the space around them, and perhaps an empty one behind. */
  ghost predicate Alike(lines: seq<string>, parts: seq<string>) {
    && |lines| <= |parts| <= |lines| + 1
    && (forall i :: 0 <= i < |lines| ==> Trim(lines[i]) == Trim(parts[i]))
    && (|parts| > |lines| ==> parts[|lines|] == "")
  }

  lemma ReadingMoves(lines: seq<string>, parts: seq<string>, json: JsonArray, xs: seq<Instruction>, at: seq<nat>)
    requires Alike(lines, parts) && LinesRead(lines, json, xs, at)
    ensures LinesRead(parts, json, xs, at)
  {
    forall a | 0 <= a < |at| ensures ReadAt(parts, json, xs, at, a) {
      assert ReadAt(lines, json, xs, at, a);
    }
    TrimIsTrimmed("");
    forall i | 0 <= i < |parts| && !SaysNothing(parts[i]) ensures i in at {
      assert i < |lines| && !SaysNothing(lines[i]);
    }
  }

  lemma FailureMoves(lines: seq<string>, parts: seq<string>, json: JsonArray, e: ParseError, i: nat)
    requires Alike(lines, parts) && LinesFail(lines, 1, json, e, i)
    ensures LinesFail(parts, 1, json, e, i)
  {
    forall j | 0 <= j < i ensures SaysNothing(parts[j]) || exists x :: LineReads(parts[j], json, x) {
      if !SaysNothing(lines[j]) {
        var x :| LineReads(lines[j], json, x);
        assert LineReads(parts[j], json, x);
      }
    }
  }

  lemma TrimCr(s: string)
    ensures s != "" && s[|s| - 1] == '\r' ==> Trim(s[..|s| - 1]) == Trim(s)
  {
    if s != "" && s[|s| - 1] == '\r' {
      var front := s[..|s| - 1];
      assert s == front + "\r";
      var w1, w2 := TrimSplits(front);
      var t := Trim(front);
      assert s == w1 + t + (w2 + "\r");
      TrimPadded(w1, t, w2 + "\r");
    }
  }

  lemma AlikeCons(line: string, lines: seq<string>, part: string, parts: seq<string>)
    requires Trim(line) == Trim(part) && Alike(lines, parts)
    ensures Alike([line] + lines, [part] + parts)
  {
  }

  /** `lines` differs from splitting at line feeds only by carriage returns and a last empty piece. */
  lemma {:induction false} LinesLikeSplit(s: string)
    ensures Alike(Lines(s), Split(s, '\n'))
    decreases |s|
  {
    var i := IndexOf(s, '\n');
    if i < |s| {
      var part, rest := s[..i], s[i + 1..];
      LinesLikeSplit(rest);
      TrimCr(part);
      assert i > 0 ==> part[..i - 1] == s[..i - 1] && part[i - 1] == s[i - 1];
      AlikeCons(if i > 0 && s[i - 1] == '\r' then s[..i - 1] else part, Lines(rest), part, Split(rest, '\n'));
    }
  }

  lemma ParseLinesStep(lines: seq<string>, k: nat, json: JsonArray)
    requires k < |lines|
    ensures var x, rest := ParseLine(Trim(lines[k]), k + 1, json), ParseLines(lines[k + 1..], k + 2, json);
      ParseLines(lines[k..], k + 1, json) ==
        if SaysNothing(lines[k]) then rest else if x.Err? then Err(x.error) else Prepend([x.value], rest)
  {
    assert lines[k..][1..] == lines[k + 1..];
  }

  lemma {:induction false} ParsesFrom(lines: seq<string>, json: JsonArray, k: nat, xs: seq<Instruction>, at: seq<nat>)
    requires k <= |lines| && LinesRead(lines[..k], json, xs, at)
    ensures Parses(lines, 1, json, Prepend(xs, ParseLines(lines[k..], k + 1, json)))
    decreases |lines| - k
  {
    if k == |lines| {
      assert lines[..k] == lines;
      EmptyUnit(xs);
    } else {
      var line := lines[k];
      assert lines[..k + 1] == lines[..k] + [line];
      ParseLinesStep(lines, k, json);
      if SaysNothing(line) {
        ReadNothingMore(lines[..k], json, xs, at, line);
        ParsesFrom(lines, json, k + 1, xs, at);
      } else {
        LineIsRead(line, k + 1, json);
        var x := ParseLine(Trim(line), k + 1, json);
        if x.Err? {
          FailsHere(lines, json, xs, at, k, x.error);
        } else {
          ReadOneMore(lines[..k], json, xs, at, line, x.value);
          ParsesFrom(lines, json, k + 1, xs + [x.value], at + [k]);
          PrependMore(xs, x.value, ParseLines(lines[k + 1..], k + 2, json));
        }
      }
    }
  }

  lemma ParsingMoves(lines: seq<string>, parts: seq<string>, json: JsonArray, r: Result<seq<Instruction>, ParseError>)
    requires Alike(lines, parts) && Parses(lines, 1, json, r)
    ensures Parses(parts, 1, json, r)
  {
    if r.Ok? {
      var at :| LinesRead(lines, json, r.value, at);
      ReadingMoves(lines, parts, json, r.value, at);
    } else {
      var i: nat :| LinesFail(lines, 1, json, r.error, i);
      FailureMoves(lines, parts, json, r.error, i);
    }
  }

  lemma ParsesLines(lines: seq<string>, json: JsonArray)
    ensures Parses(lines, 1, json, ParseLines(lines, 1, json))
  {
    assert lines[0..] == lines && lines[..0] == [];
    ParsesFrom(lines, json, 0, [], []);
    PrependNone(ParseLines(lines, 1, json));
  }

  lemma ParsesContent(content: string, json: JsonArray)
    ensures Parses(Split(content, '\n'), 1, json, ParseLines(Lines(content), 1, json))
  {
    ParsesLines(Lines(content), json);
    LinesLikeSplit(content);
    ParsingMoves(Lines(content), Split(content, '\n'), json, ParseLines(Lines(content), 1, json));
  }

  lemma PrependFirst(lines: seq<string>, json: JsonArray)
    ensures ParseLines(lines, 1, json) == Prepend([], ParseLines(lines[0..], 1, json))
  {
    assert lines[0..] == lines;
    PrependNone(ParseLines(lines, 1, json));
  }

  lemma PrependLast(done: seq<Instruction>, lines: seq<string>, json: JsonArray)
    ensures Prepend(done, ParseLines(lines[|lines|..], |lines| + 1, json)) == Ok(done)
  {
    EmptyUnit(done);
  }

  /** The loop over the lines. */
  method ParseAll(lines: seq<string>, json: JsonArray) returns (r: Result<seq<Instruction>, ParseError>)
    ensures r == ParseLines(lines, 1, json)
  {
    var instructions: seq<Instruction> := [];
    var k := 0;
    PrependFirst(lines, json);
    while k < |lines|
      invariant 0 <= k <= |lines|
      invariant ParseLines(lines, 1, json) == Prepend(instructions, ParseLines(lines[k..], k + 1, json))
    {
      ParseLinesStep(lines, k, json);
      var line := Trim(lines[k]);
      if !Skipped(line) {
        var x := ParseLine(line, k + 1, json);
        if x.Err? {
          return Err(x.error);
        }
        PrependMore(instructions, x.value, ParseLines(lines[k + 1..], k + 2, json));
        instructions := instructions + [x.value];
      }
      k := k + 1;
    }
    PrependLast(instructions, lines, json);
    return Ok(instructions);
  }

  /** The lines between line feeds are read in order; the first that is no instruction is the error. */
  method ParseContent(content: string, json: JsonArray) returns (r: Result<seq<Instruction>, ParseError>)
    ensures r == ParseLines(Lines(content), 1, json)
    ensures Parses(Split(content, '\n'), 1, json, r)
  {
    r := ParseAll(Lines(content), json);
    ParsesContent(content, json);
  }

  /** A quote left open is read as if it were closed at the end. */
  lemma OpenQuoteReadsOn(s: string, q: char, text: string)
    requires IsQuote(q) && q !in text && !Scan(START, s).inQuotes
    ensures Tokenize(s + ([q] + text)) == Tokenize(s + ([q] + text + [q]))
  {
    var t := Scan(START, s);
    var inside := t.(inQuotes := true, quoteChar := q);
    var full := inside.(current := t.current + text);
    ScanOne(t, q);
    ScanPlain(inside, text);
    ScanOne(full, q);
    ScanThen(t, [q], inside, text, full);
    ScanThen(t, [q] + text, full, [q], full.(inQuotes := false));
    ScanConcat(START, s, [q] + text);
    ScanConcat(START, s, [q] + text + [q]);
  }

  // ---------- Printing files ----------

  function Keyword(x: Instruction): string {
    match x
    case From(_) => "FROM"
    case Run(_) => "RUN"
    case Copy(_, _) => "COPY"
    case Cmd(_) => "CMD"
    case Entrypoint(_) => "ENTRYPOINT"
    case Env(_, _) => "ENV"
    case Workdir(_) => "WORKDIR"
    case VmMeasuredBoot => "VM_MEASURED_BOOT"
  }

  function Argument(x: Instruction): string {
    match x
    case From(image) => image
    case Run(command) => command
    case Copy(src, dst) => src + " " + dst
    case Cmd(args) => PrintArgs(args)
    case Entrypoint(args) => PrintArgs(args)
    case Env(key, value) => key + ['='] + value
    case Workdir(path) => path
    case VmMeasuredBoot => ""
  }

  predicate Phrase(s: string) { s != "" && Trimmed(s) && '\n' !in s }

  predicate Arguments(args: seq<string>) {
    forall i :: 0 <= i < |args| ==> args[i] != "" && '\n' !in args[i]
  }

  /** What a line can say: single-line values without surrounding whitespace. */
  predicate Expressible(x: Instruction) {
    match x
    case From(image) => Phrase(image)
    case Run(command) => Phrase(command)
    case Copy(src, dst) => Word(src) && Word(dst)
    case Cmd(args) => Arguments(args)
    case Entrypoint(args) => Arguments(args)
    case Env(key, value) => Trimmed(key) && '=' !in key && '\n' !in key && Trimmed(value) && '\n' !in value
    case Workdir(path) => Phrase(path)
    case VmMeasuredBoot => true
  }

  /** One line of a file: blank, a comment, or an instruction in any layout and letter case. */
  datatype Line =
    | Blank(space: string)
    | Comment(space: string, text: string)
    | Stated(space: string, keyword: string, gap: string, instruction: Instruction, trail: string)

  predicate LineSpace(s: string) { AllWhitespace(s) && '\n' !in s }

  predicate ValidLine(l: Line) {
    match l
    case Blank(space) => LineSpace(space)
    case Comment(space, text) => LineSpace(space) && '\n' !in text
    case Stated(space, keyword, gap, x, trail) =>
      && LineSpace(space) && LineSpace(gap) && gap != "" && LineSpace(trail)
      && Upper(keyword) == Keyword(x) && Expressible(x)
  }

  function Statement(keyword: string, gap: string, x: Instruction): string {
    if Argument(x) == "" then keyword else keyword + (gap + Argument(x))
  }

  function PrintLine(l: Line): string {
    match l
    case Blank(space) => space
    case Comment(space, text) => space + ("#" + text)
    case Stated(space, keyword, gap, x, trail) => space + Statement(keyword, gap, x) + trail
  }

  function PrintFile(ls: seq<Line>): string {
    if ls == [] then "" else PrintLine(ls[0]) + ("\n" + PrintFile(ls[1..]))
  }

  function Instructions(ls: seq<Line>): seq<Instruction> {
    if ls == [] then []
    else (if ls[0].Stated? then [ls[0].instruction] else []) + Instructions(ls[1..])
  }

  // ---------- The round trip ----------

  lemma KeywordIsWord(keyword: string, x: Instruction)
    requires Upper(keyword) == Keyword(x)
    ensures Word(keyword) && '\n' !in keyword && keyword[0] != '#'
  {
    var k := Keyword(x);
    assert forall i :: 0 <= i < |k| ==> 'A' <= k[i] <= 'Z' || k[i] == '_';
    forall i | 0 <= i < |keyword| ensures !IsWhitespace(keyword[i]) && keyword[i] != '\n' && keyword[i] != '#' {
      assert k[i] == UpperChar(keyword[i]);
    }
  }

  lemma PiecesShape(ps: seq<Piece>)
    requires ps != [] && ps[0].Quoted? && ValidPieces(ps)
    ensures PrintPieces(ps) != "" && IsQuote(PrintPieces(ps)[0])
  {
  }

  lemma {:induction false} PiecesEnd(ps: seq<Piece>)
    requires ps != [] && ps[|ps| - 1].Quoted? && ValidPieces(ps)
    ensures PrintPieces(ps) != "" && IsQuote(PrintPieces(ps)[|PrintPieces(ps)| - 1])
    decreases |ps|
  {
    if |ps| > 1 {
      PiecesEnd(ps[1..]);
    } else {
      assert PrintPieces(ps) == PrintPiece(ps[0]) + "";
    }
  }

  lemma {:induction false} PiecesOneLine(ps: seq<Piece>)
    requires ValidPieces(ps) && '\n' !in TextOf(ps)
    ensures '\n' !in PrintPieces(ps)
    decreases |ps|
  {
    if ps != [] {
      assert forall c :: c in ps[0].text || c in TextOf(ps[1..]) ==> c in TextOf(ps);
      PiecesOneLine(ps[1..]);
    }
  }

  lemma {:induction false} SpellTextEnds(s: string)
    ensures SpellText(s)[|SpellText(s)| - 1].Quoted?
    decreases |s|
  {
    if '"' in s { SpellTextEnds(s[IndexOf(s, '"') + 1..]); }
  }

  lemma TokenShape(text: string)
    requires '\n' !in text
    ensures var p := PrintPieces(SpellText(text)); p != "" && IsQuote(p[0]) && IsQuote(p[|p| - 1]) && '\n' !in p
  {
    var ps := SpellText(text);
    SpellTextSpells(text);
    PiecesShape(ps);
    SpellTextEnds(text);
    PiecesEnd(ps);
    PiecesOneLine(ps);
  }

  /** A printed argument list starts and ends with a quote, so it is never taken for JSON and trimming is harmless. */
  lemma {:induction false} SpelledShape(ts: seq<Spelled>, args: seq<string>)
    requires |ts| == |args| && ts != [] && (forall i :: 0 <= i < |ts| ==> ts[i].pieces == SpellText(args[i]))
    requires forall i :: 0 <= i < |args| ==> '\n' !in args[i]
    ensures var p := PrintSpelled(ts);
      p != "" && IsQuote(p[|p| - 1]) && '\n' !in p && (ts[0].spaces == 0 ==> IsQuote(p[0]))
    decreases |ts|
  {
    TokenShape(args[0]);
    var body, rest := PrintPieces(ts[0].pieces), PrintSpelled(ts[1..]);
    if |ts| > 1 {
      SpelledShape(ts[1..], args[1..]);
    }
    JoinedShape(Spaces(ts[0].spaces), body, rest);
  }

  lemma JoinedShape(lead: string, body: string, rest: string)
    requires body != "" && IsQuote(body[|body| - 1]) && '\n' !in lead && '\n' !in body && '\n' !in rest
    requires rest != "" ==> IsQuote(rest[|rest| - 1])
    ensures var p := lead + (body + rest); IsQuote(p[|p| - 1]) && '\n' !in p && (lead == "" ==> p[0] == body[0])
  {
  }

  lemma ArgsShape(args: seq<string>)
    requires Arguments(args)
    ensures Trimmed(PrintArgs(args)) && '\n' !in PrintArgs(args) && !LooksLikeJson(PrintArgs(args))
  {
    if args != [] { SpelledShape(SpellArgs(args), args); }
  }

  lemma TrimOfTrimmed(s: string)
    requires Trimmed(s)
    ensures Trim(s) == s
  {
    TrimPadded("", s, "");
    assert "" + s + "" == s;
  }

  lemma ArgumentShape(x: Instruction)
    requires Expressible(x)
    ensures Trimmed(Argument(x)) && '\n' !in Argument(x)
  {
    match x
    case Cmd(args) => ArgsShape(args);
    case Entrypoint(args) => ArgsShape(args);
    case _ =>
  }

  lemma WordsOfTwo(a: string, b: string)
    requires Word(a) && Word(b)
    ensures Words(a + " " + b) == [a, b]
  {
    WordsStep(b, "");
    WordsSkip(" ", b);
    WordsStep(a, " " + b);
    EmptyUnit(b);
    assert a + " " + b == a + (" " + b);
  }

  lemma ShellArgsRoundTrip(args: seq<string>, json: JsonArray)
    requires Arguments(args)
    ensures ShellArgs(PrintArgs(args), json) == Ok(args)
  {
    ArgsShape(args);
    TrimOfTrimmed(PrintArgs(args));
    PrintedArgsRoundTripIff(args);
  }

  lemma SplitStatement(keyword: string, gap: string, argument: string)
    requires Word(keyword) && gap != "" && AllWhitespace(gap) && Trimmed(argument)
    ensures var line := keyword + (gap + argument);
      FirstSpace(line) == |keyword| && line[..|keyword|] == keyword && Trim(line[|keyword| + 1..]) == argument
  {
    var line := keyword + (gap + argument);
    assert line[|keyword|] == gap[0];
    FirstSpaceIs(line, |keyword|);
    assert line[|keyword| + 1..] == gap[1..] + argument + "";
    TrimPadded(gap[1..], argument, "");
  }

  lemma ParseStatement(keyword: string, gap: string, x: Instruction, n: nat, json: JsonArray)
    requires Expressible(x) && Upper(keyword) == Keyword(x) && gap != "" && AllWhitespace(gap)
    ensures ParseLine(Statement(keyword, gap, x), n, json) == Ok(x)
  {
    KeywordIsWord(keyword, x);
    ArgumentShape(x);
    ParseKeyword(x, n, json);
    StatementSplits(keyword, gap, x, n, json);
  }

  lemma StatementSplits(keyword: string, gap: string, x: Instruction, n: nat, json: JsonArray)
    requires Word(keyword) && gap != "" && AllWhitespace(gap) && Trimmed(Argument(x))
    ensures ParseLine(Statement(keyword, gap, x), n, json) == ParseInstruction(Upper(keyword), Argument(x), n, json)
  {
    if Argument(x) == "" {
      FirstSpaceIs(keyword, |keyword|);
      assert keyword[..|keyword|] == keyword;
      ParsesAs(keyword, |keyword|, keyword, "", n, json);
    } else {
      SplitStatement(keyword, gap, Argument(x));
      ParsesAs(keyword + (gap + Argument(x)), |keyword|, keyword, Argument(x), n, json);
    }
  }

  lemma ParsesAs(line: string, i: nat, keyword: string, argument: string, n: nat, json: JsonArray)
    requires i <= |line| && FirstSpace(line) == i && line[..i] == keyword
    requires argument == if i < |line| then Trim(line[i + 1..]) else ""
    ensures ParseLine(line, n, json) == ParseInstruction(Upper(keyword), argument, n, json)
  {
  }

  lemma ParseKeyword(x: Instruction, n: nat, json: JsonArray)
    requires Expressible(x)
    ensures ParseInstruction(Keyword(x), Argument(x), n, json) == Ok(x)
  {
    match x
    case Copy(src, dst) => WordsOfTwo(src, dst);
    case Cmd(args) => ShellArgsRoundTrip(args, json);
    case Entrypoint(args) => ShellArgsRoundTrip(args, json);
    case Env(key, value) =>
      SplitOnceJoin(key, '=', value);
      TrimOfTrimmed(key);
      TrimOfTrimmed(value);
    case _ =>
  }

  lemma StatementShape(keyword: string, gap: string, x: Instruction)
    requires Expressible(x) && Upper(keyword) == Keyword(x) && LineSpace(gap)
    ensures var s := Statement(keyword, gap, x); Trimmed(s) && '\n' !in s && !Skipped(s)
  {
    KeywordIsWord(keyword, x);
    ArgumentShape(x);
  }

  /** A line as `lines` delivers it, with or without a carriage return cut off, is parsed as what it states. */
  lemma LineMeaning(l: Line, n: nat, json: JsonArray)
    requires ValidLine(l)
    ensures if l.Stated?
            then !Skipped(Trim(PrintLine(l))) && ParseLine(Trim(PrintLine(l)), n, json) == Ok(l.instruction)
            else Skipped(Trim(PrintLine(l)))
    ensures '\n' !in PrintLine(l)
  {
    match l
    case Blank(space) => TrimAllWhitespace(space);
    case Comment(space, text) =>
      TrimStartSkips(space, "#" + text);
      TrimEndKeepsHead("#" + text);
    case Stated(space, keyword, gap, x, trail) =>
      StatementShape(keyword, gap, x);
      TrimPadded(space, Statement(keyword, gap, x), trail);
      ParseStatement(keyword, gap, x, n, json);
  }

  lemma {:induction false} TrimEndKeepsHead(s: string)
    requires s != "" && !IsWhitespace(s[0])
    ensures TrimEnd(s) != "" && TrimEnd(s)[0] == s[0]
    decreases |s|
  {
    if IsWhitespace(s[|s| - 1]) { TrimEndKeepsHead(s[..|s| - 1]); }
  }

  lemma TrimDropsCr(s: string)
    ensures Trim(s + "\r") == Trim(s)
  {
    if AllWhitespace(s) {
      TrimAllWhitespace(s);
      TrimAllWhitespace(s + "\r");
    } else {
      TrimStartAppend(s, "\r");
      TrimEndSkips(TrimStart(s), "\r");
    }
  }

  lemma {:induction false} TrimStartAppend(s: string, t: string)
    requires !AllWhitespace(s)
    ensures TrimStart(s + t) == TrimStart(s) + t
    decreases |s|
  {
    if IsWhitespace(s[0]) {
      assert (s + t)[1..] == s[1..] + t;
      assert s == [s[0]] + s[1..];
      TrimStartAppend(s[1..], t);
    }
  }

  lemma FirstLine(line: string, rest: string)
    requires '\n' !in line
    ensures Lines(line + ("\n" + rest)) != [] && Lines(line + ("\n" + rest))[1..] == Lines(rest)
    ensures Trim(Lines(line + ("\n" + rest))[0]) == Trim(line)
  {
    var s := line + ("\n" + rest);
    LineBreak(line, rest);
    if line != "" && line[|line| - 1] == '\r' {
      var cut := line[..|line| - 1];
      assert s[..|line| - 1] == cut && line == cut + "\r";
      TrimDropsCr(cut);
    }
  }

  lemma LineBreak(line: string, rest: string)
    requires '\n' !in line
    ensures var s := line + ("\n" + rest);
      IndexOf(s, '\n') == |line| && s[..|line|] == line && s[|line| + 1..] == rest
      && (line != "" ==> s[|line| - 1] == line[|line| - 1])
  {
    var s := line + ("\n" + rest);
    assert s[|line|] == '\n';
    assert forall j :: 0 <= j < |line| ==> s[j] == line[j];
    IndexOfIs(s, '\n', |line|);
  }

  lemma FirstLineMeaning(lines: seq<string>, l: Line, n: nat, json: JsonArray)
    requires lines != [] && Trim(lines[0]) == Trim(PrintLine(l)) && ValidLine(l)
    ensures ParseLines(lines, n, json)
         == Prepend(if l.Stated? then [l.instruction] else [], ParseLines(lines[1..], n + 1, json))
  {
    LineMeaning(l, n, json);
    PrependNone(ParseLines(lines[1..], n + 1, json));
  }

  lemma {:induction false} FileMeaning(ls: seq<Line>, n: nat, json: JsonArray)
    requires forall i :: 0 <= i < |ls| ==> ValidLine(ls[i])
    ensures ParseLines(Lines(PrintFile(ls)), n, json) == Ok(Instructions(ls))
    decreases |ls|
  {
    if ls != [] {
      var l := ls[0];
      LineMeaning(l, n, json);
      FileMeaning(ls[1..], n + 1, json);
      FirstLine(PrintLine(l), PrintFile(ls[1..]));
      FirstLineMeaning(Lines(PrintFile(ls)), l, n, json);
      PrependNone(Ok(Instructions(ls[1..])));
    }
  }

  /** Any file made of blank lines, comments and instructions, in any layout and letter case, is read as exactly its
      instructions, whatever the JSON reader does. */
  lemma PrintedFileRoundTrip(ls: seq<Line>, json: JsonArray)
    requires forall i :: 0 <= i < |ls| ==> ValidLine(ls[i])
    ensures ParseLines(Lines(PrintFile(ls)), 1, json) == Ok(Instructions(ls))
  {
    FileMeaning(ls, 1, json);
  }

  // ---------- Every accepted file has a printed form ----------

  /** The argument list, if any, can be written without JSON: single-line, non-empty arguments. */
  predicate ListWritable(x: Instruction) {
    match x
    case Cmd(args) => Arguments(args)
    case Entrypoint(args) => Arguments(args)
    case _ => true
  }

  /** Expressible but for the argument list. */
  predicate Statable(x: Instruction) { x.Cmd? || x.Entrypoint? || Expressible(x) }

  lemma {:induction false} TrimStartChars(s: string)
    ensures forall c :: c in TrimStart(s) ==> c in s
  {
    if s != "" && IsWhitespace(s[0]) { TrimStartChars(s[1..]); }
  }

  lemma {:induction false} TrimEndChars(s: string)
    ensures forall c :: c in TrimEnd(s) ==> c in s
    ensures TrimEnd(s) == "" || !IsWhitespace(TrimEnd(s)[|TrimEnd(s)| - 1])
    ensures s != "" && !IsWhitespace(s[0]) ==> TrimEnd(s) != "" && TrimEnd(s)[0] == s[0]
    decreases |s|
  {
    if s != "" && IsWhitespace(s[|s| - 1]) { TrimEndChars(s[..|s| - 1]); }
  }

  lemma TrimChars(s: string)
    ensures Trimmed(Trim(s)) && forall c :: c in Trim(s) ==> c in s
  {
    TrimStartShape(s);
    TrimStartChars(s);
    TrimEndChars(TrimStart(s));
  }

  lemma {:induction false} WordsAreWords(s: string)
    ensures forall i :: 0 <= i < |Words(s)| ==> Word(Words(s)[i])
    decreases |s|
  {
    TrimStartShape(s);
    var t := TrimStart(s);
    if t != "" { WordsAreWords(t[FirstSpace(t)..]); }
  }

  lemma {:induction false} TokensAreArguments(t: Scanner, s: string)
    requires Arguments(t.result) && '\n' !in t.current && '\n' !in s
    ensures Arguments(Flush(Scan(t, s)))
    decreases |s|
  {
    if s != "" {
      assert s[0] in s;
      TokensAreArguments(Next(t, s[0]), s[1..]);
    }
  }

  /** Lists read without JSON can always be written without it. */
  lemma ShellListsAreArguments(args: string, json: JsonArray)
    requires !LooksLikeJson(Trim(args)) && '\n' !in args
    ensures ShellArgs(args, json).Ok? && Arguments(ShellArgs(args, json).value)
  {
    TokensAreArguments(START, args);
  }

  lemma ParsedIsStatable(line: string, n: nat, json: JsonArray)
    requires '\n' !in line && ParseLine(line, n, json).Ok?
    ensures Statable(ParseLine(line, n, json).value)
  {
    var i := FirstSpace(line);
    if i < |line| { TrimChars(line[i + 1..]); }
    ParsedInstructionIsStatable(Upper(line[..i]), if i < |line| then Trim(line[i + 1..]) else "", n, json);
  }

  lemma ParsedInstructionIsStatable(instruction: string, args: string, n: nat, json: JsonArray)
    requires Trimmed(args) && '\n' !in args && ParseInstruction(instruction, args, n, json).Ok?
    ensures Statable(ParseInstruction(instruction, args, n, json).value)
  {
    match ParseInstruction(instruction, args, n, json).value
    case Copy(_, _) => WordsAreWords(args);
    case Env(_, _) =>
      var i := IndexOf(args, '=');
      TrimChars(args[..i]);
      TrimChars(args[i + 1..]);
    case _ =>
  }

  lemma {:induction false} LinesHaveNoBreak(s: string)
    ensures forall i :: 0 <= i < |Lines(s)| ==> '\n' !in Lines(s)[i]
    decreases |s|
  {
    if '\n' in s { LinesHaveNoBreak(s[IndexOf(s, '\n') + 1..]); }
  }

  lemma {:induction false} ParsedLinesAreStatable(lines: seq<string>, n: nat, json: JsonArray)
    requires (forall i :: 0 <= i < |lines| ==> '\n' !in lines[i]) && ParseLines(lines, n, json).Ok?
    ensures forall i :: 0 <= i < |ParseLines(lines, n, json).value| ==> Statable(ParseLines(lines, n, json).value[i])
    decreases |lines|
  {
    if lines != [] {
      ParsedLinesAreStatable(lines[1..], n + 1, json);
      TrimChars(lines[0]);
      var line := Trim(lines[0]);
      if !Skipped(line) { ParsedIsStatable(line, n, json); }
    }
  }

  function Canonical(xs: seq<Instruction>): (ls: seq<Line>)
    ensures |ls| == |xs|
    ensures forall i :: 0 <= i < |xs| ==> ls[i] == Stated("", Keyword(xs[i]), " ", xs[i], "")
  {
    seq(|xs|, i requires 0 <= i < |xs| => Stated("", Keyword(xs[i]), " ", xs[i], ""))
  }

  lemma KeywordIsUpper(x: Instruction)
    ensures Upper(Keyword(x)) == Keyword(x)
  {
    var k := Keyword(x);
    assert forall i :: 0 <= i < |k| ==> 'A' <= k[i] <= 'Z' || k[i] == '_';
  }

  lemma {:induction false} CanonicalInstructions(xs: seq<Instruction>)
    ensures Instructions(Canonical(xs)) == xs
  {
    if xs != [] {
      CanonicalInstructions(xs[1..]);
      assert Canonical(xs)[1..] == Canonical(xs[1..]);
    }
  }

  lemma {:induction false} TrimEndAppend(a: string, t: string)
    requires t != "" && !IsWhitespace(t[0])
    ensures TrimEnd(a + t) == a + TrimEnd(t)
    decreases |t|
  {
    if IsWhitespace(t[|t| - 1]) {
      assert (a + t)[..|a + t| - 1] == a + t[..|t| - 1];
      TrimEndAppend(a, t[..|t| - 1]);
    }
  }

  /** The first line of a text that breaks only after position `k`. */
  lemma LineReaches(s: string, k: nat) returns (m: nat)
    requires k < |s| && s[k] != '\r' && '\n' in s && forall j :: 0 <= j <= k ==> s[j] != '\n'
    ensures k < m <= |s| && Lines(s) != [] && Lines(s)[0] == s[..m] && '\n' !in s[..m]
  {
    var i := IndexOf(s, '\n');
    assert i > k && (i - 1 == k ==> s[i - 1] != '\r');
    m := if s[i - 1] == '\r' then i - 1 else i;
    LinesHead(s);
  }

  lemma LinesHead(s: string)
    requires '\n' in s
    ensures var i := IndexOf(s, '\n');
      Lines(s) != [] && Lines(s)[0] == if i > 0 && s[i - 1] == '\r' then s[..i - 1] else s[..i]
  {
  }

  lemma TextReaches(head: string, p: string, rest: string)
    requires '\n' !in head && p != "" && p[0] != '\n'
    ensures var s, k := (head + p) + ("\n" + rest), |head|;
      s[..k] == head && s[k] == p[0] && '\n' in s && forall j :: 0 <= j <= k ==> s[j] != '\n'
  {
    var s, k := (head + p) + ("\n" + rest), |head|;
    assert s[|head + p|] == '\n';
    forall j | 0 <= j < k ensures s[j] != '\n' { assert s[j] == head[j]; }
  }

  /** The first line of a printed list instruction that breaks over several: its keyword, and the rest up to the break,
      which still starts with a quote. */
  lemma BrokenLine(head: string, p: string, rest: string) returns (t: string)
    requires head != "" && !IsWhitespace(head[0]) && '\n' !in head && p != "" && IsQuote(p[0])
    ensures Lines((head + p) + ("\n" + rest)) != [] && Trim(Lines((head + p) + ("\n" + rest))[0]) == head + t
    ensures t != "" && IsQuote(t[0]) && Trimmed(t) && '\n' !in t
  {
    var s, k := (head + p) + ("\n" + rest), |head|;
    TextReaches(head, p, rest);
    var m := LineReaches(s, k);
    var u := s[k..m];
    assert s[..m] == head + u && u[0] == p[0];
    TrimAfterHead(head, u);
    TrimEndChars(u);
    t := TrimEnd(u);
    assert '\n' !in u by { assert forall c :: c in u ==> c in s[..m]; }
  }

  lemma TrimAfterHead(head: string, u: string)
    requires head != "" && !IsWhitespace(head[0]) && u != "" && !IsWhitespace(u[0])
    ensures Trim(head + u) == head + TrimEnd(u)
  {
    TrimEndAppend(head, u);
    assert TrimStart(head + u) == head + u;
  }

  lemma BrokenLineParses(x: Instruction, t: string, n: nat, json: JsonArray)
    requires (x.Cmd? || x.Entrypoint?) && t != "" && IsQuote(t[0]) && Trimmed(t) && '\n' !in t
    ensures var r := ParseLine(Keyword(x) + " " + t, n, json);
      r.Ok? && ListWritable(r.value) && (r.value.Cmd? || r.value.Entrypoint?)
    ensures !Skipped(Keyword(x) + " " + t)
  {
    KeywordIsUpper(x);
    KeywordIsWord(Keyword(x), x);
    SplitStatement(Keyword(x), " ", t);
    Assoc(Keyword(x), " ", t);
    TrimOfTrimmed(t);
    ShellListsAreArguments(t, json);
  }

  lemma FirstDiffers(lines: seq<string>, n: nat, json: JsonArray, x: Instruction, xs: seq<Instruction>)
    requires lines != [] && !Skipped(Trim(lines[0])) && ParseLine(Trim(lines[0]), n, json) != Ok(x)
    ensures ParseLines(lines, n, json) != Ok([x] + xs)
  {
    var r := ParseLines(lines, n, json);
    if r.Ok? { assert r.value[0] == ParseLine(Trim(lines[0]), n, json).value; }
  }

  lemma ListStatement(x: Instruction)
    requires (x.Cmd? || x.Entrypoint?) && x.args != []
    ensures PrintLine(Stated("", Keyword(x), " ", x, "")) == Keyword(x) + " " + PrintArgs(x.args)
    ensures PrintArgs(x.args) != "" && IsQuote(PrintArgs(x.args)[0])
  {
    SpellTextSpells(x.args[0]);
    PiecesShape(SpellText(x.args[0]));
    FirstTokenQuoted(x.args);
    EmptyUnit(Keyword(x) + " " + PrintArgs(x.args));
    Assoc(Keyword(x), " ", PrintArgs(x.args));
  }

  /** An instruction whose list cannot be written comes back as another one. */
  lemma UnwritableIsMangled(x: Instruction, rest: string, xs: seq<Instruction>, n: nat, json: JsonArray)
    requires Statable(x) && !ListWritable(x)
    ensures ParseLines(Lines(PrintLine(Stated("", Keyword(x), " ", x, "")) + ("\n" + rest)), n, json) != Ok([x] + xs)
  {
    ListStatement(x);
    KeywordIsUpper(x);
    KeywordIsWord(Keyword(x), x);
    var head := Keyword(x) + " ";
    var t := BrokenLine(head, PrintArgs(x.args), rest);
    BrokenLineParses(x, t, n, json);
    FirstDiffers(Lines((head + PrintArgs(x.args)) + ("\n" + rest)), n, json, x, xs);
  }

  lemma FirstTokenQuoted(args: seq<string>)
    requires args != [] && PrintPieces(SpellText(args[0])) != "" && IsQuote(PrintPieces(SpellText(args[0]))[0])
    ensures PrintArgs(args) != "" && IsQuote(PrintArgs(args)[0])
  {
    assert Spaces(0) == "";
  }

  lemma CanonicalCons(x: Instruction, more: seq<Instruction>)
    ensures PrintFile(Canonical([x] + more))
         == PrintLine(Stated("", Keyword(x), " ", x, "")) + ("\n" + PrintFile(Canonical(more)))
  {
    assert Canonical([x] + more)[1..] == Canonical(more);
  }

  lemma MangledLater(x: Instruction, rest: string, xs: seq<Instruction>, n: nat, json: JsonArray)
    requires Expressible(x) && ParseLines(Lines(rest), n + 1, json) != Ok(xs)
    ensures ParseLines(Lines(PrintLine(Stated("", Keyword(x), " ", x, "")) + ("\n" + rest)), n, json) != Ok([x] + xs)
  {
    var l := Stated("", Keyword(x), " ", x, "");
    KeywordIsUpper(x);
    LineMeaning(l, n, json);
    FirstLine(PrintLine(l), rest);
    FirstLineMeaning(Lines(PrintLine(l) + ("\n" + rest)), l, n, json);
    var r := ParseLines(Lines(rest), n + 1, json);
    if r.Ok? { assert ([x] + r.value)[1..] == r.value && ([x] + xs)[1..] == xs; }
  }

  /** Printing the instructions and parsing from line `n` on gives them back. */
  ghost predicate Reprints(xs: seq<Instruction>, n: nat, json: JsonArray) {
    ParseLines(Lines(PrintFile(Canonical(xs))), n, json) == Ok(xs)
  }

  lemma HeadMangled(x: Instruction, more: seq<Instruction>, n: nat, json: JsonArray)
    requires Statable(x) && !ListWritable(x)
    ensures !Reprints([x] + more, n, json)
  {
    CanonicalCons(x, more);
    UnwritableIsMangled(x, PrintFile(Canonical(more)), more, n, json);
  }

  lemma TailMangled(x: Instruction, more: seq<Instruction>, n: nat, json: JsonArray)
    requires Expressible(x) && !Reprints(more, n + 1, json)
    ensures !Reprints([x] + more, n, json)
  {
    CanonicalCons(x, more);
    MangledLater(x, PrintFile(Canonical(more)), more, n, json);
  }

  lemma {:induction false} UnwritableFileIsMangled(xs: seq<Instruction>, i: nat, n: nat, json: JsonArray)
    requires i < |xs| && !ListWritable(xs[i]) && forall k :: 0 <= k <= i ==> Statable(xs[k])
    ensures !Reprints(xs, n, json)
    decreases i
  {
    var x, more := xs[0], xs[1..];
    assert xs == [x] + more;
    if !ListWritable(x) {
      HeadMangled(x, more, n, json);
    } else {
      assert more[i - 1] == xs[i];
      UnwritableFileIsMangled(more, i - 1, n + 1, json);
      TailMangled(x, more, n, json);
    }
  }

  lemma WritableFileReprints(xs: seq<Instruction>, json: JsonArray)
    requires forall i :: 0 <= i < |xs| ==> Statable(xs[i]) && ListWritable(xs[i])
    ensures Reprints(xs, 1, json)
  {
    forall i | 0 <= i < |xs| ensures ValidLine(Canonical(xs)[i]) { KeywordIsUpper(xs[i]); }
    PrintedFileRoundTrip(Canonical(xs), json);
    CanonicalInstructions(xs);
  }

  /** Whatever a file's layout, printing its instructions and parsing again gives the same instructions exactly when its
      own CMD and ENTRYPOINT lists hold only single-line, non-empty arguments, as lists read without JSON always do. */
  lemma AcceptedFilesReprintIff(content: string, json: JsonArray)
    requires ParseLines(Lines(content), 1, json).Ok?
    ensures var xs := ParseLines(Lines(content), 1, json).value;
      Reprints(xs, 1, json) <==> forall i :: 0 <= i < |xs| ==> ListWritable(xs[i])
  {
    LinesHaveNoBreak(content);
    ParsedLinesAreStatable(Lines(content), 1, json);
    var xs := ParseLines(Lines(content), 1, json).value;
    if forall i :: 0 <= i < |xs| ==> ListWritable(xs[i]) {
      WritableFileReprints(xs, json);
    } else {
      var i :| 0 <= i < |xs| && !ListWritable(xs[i]);
      UnwritableFileIsMangled(xs, i, 1, json);
    }
  }
}
