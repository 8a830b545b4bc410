/** The event-monitor framer inside `start_daemon` (crates/vyoma-core/src/vmm.rs): a byte-at-a-time scanner that cuts
    a stream into JSON objects. As in the source, each byte is read as one character, also where a character of the
    text takes several bytes of UTF-8. */
module EventFramer {
  import opened Outcomes
  import opened Text

  datatype State = State(buffer: string, depth: int, inString: bool, escape: bool)

  const INIT := State("", 0, false, false)

  /** `brace_depth` is an `i32`; release arithmetic wraps. */
  function Wrap32(n: int): int {
    var m := n % 0x1_0000_0000;
    if m >= 0x8000_0000 then m - 0x1_0000_0000 else m
  }

  /** One byte: the next state, and the buffer when the byte completes an object. */
  function Next(s: State, c: char): (State, Option<string>) {
    var t := s.(buffer := s.buffer + [c]);
    if s.escape then (t.(escape := false), None)
    else if c == '\\' then (t.(escape := true), None)
    else if c == '"' then (t.(inString := !s.inString), None)
    else if s.inString then (t, None)
    else if c == '{' then (t.(depth := Wrap32(s.depth + 1)), None)
    else if c == '}' then
      var d := Wrap32(s.depth - 1);
      if d == 0 then (t.(depth := 0, buffer := ""), Some(t.buffer)) else (t.(depth := d), None)
    else (t, None)
  }

  function Add(cuts: seq<string>, cut: Option<string>): seq<string> {
    if cut.None? then cuts else cuts + [cut.value]
  }

  /** The state after a stream, and the buffers cut along the way. */
  function Feed(s: State, input: string): (State, seq<string>) {
    if input == [] then (s, [])
    else
      var (t, cuts) := Feed(s, input[..|input| - 1]);
      var (u, cut) := Next(t, input[|input| - 1]);
      (u, Add(cuts, cut))
  }

  lemma FeedSnoc(s: State, text: string, c: char)
    ensures Feed(s, text + [c]) == (Next(Feed(s, text).0, c).0, Add(Feed(s, text).1, Next(Feed(s, text).0, c).1))
  {
    assert (text + [c])[..|text + [c]| - 1] == text;
  }

  /** What is handed to the JSON parser: each cut, trimmed. */
  function Submitted(cuts: seq<string>): seq<string> {
    seq(|cuts|, i requires 0 <= i < |cuts| => Trim(cuts[i]))
  }

  lemma SubmittedSnoc(cuts: seq<string>, b: string)
    ensures Submitted(cuts + [b]) == Submitted(cuts) + [Trim(b)]
  {
  }

  function Concat(parts: seq<string>): string {
    if parts == [] then "" else Concat(parts[..|parts| - 1]) + parts[|parts| - 1]
  }

  // ---------- The scanning loop ----------

  lemma CutIsNotBlank(s: State, c: char)
    ensures Next(s, c).1.Some? ==> Trim(s.buffer + [c]) != ""
  {
    if Next(s, c).1.Some? {
      var b := s.buffer + [c];
      TrimStartKeepsLast(s.buffer, c);
    }
  }

  lemma {:induction false} TrimStartKeepsLast(s: string, c: char)
    requires !IsWhitespace(c)
    ensures Trim(s + [c]) != ""
  {
    if s != [] && IsWhitespace(s[0]) {
      assert (s + [c])[1..] == s[1..] + [c];
      TrimStartKeepsLast(s[1..], c);
    } else {
      assert TrimStart(s + [c]) == s + [c] && (s + [c])[|s|] == c;
    }
  }

  /** One byte of the loop. */
  method Push(buffer: string, depth: int, inString: bool, escape: bool, c: char)
    returns (buffer': string, depth': int, inString': bool, escape': bool, cut: Option<string>)
    ensures Next(State(buffer, depth, inString, escape), c) == (State(buffer', depth', inString', escape'), cut)
  {
    buffer', depth', inString', escape', cut := buffer + [c], depth, inString, escape, None;
    if escape {
      escape' := false;
    } else if c == '\\' {
      escape' := true;
    } else if c == '"' {
      inString' := !inString;
    } else if !inString {
      if c == '{' {
        depth' := Wrap32(depth + 1);
      } else if c == '}' {
        depth' := Wrap32(depth - 1);
        if depth' == 0 {
          cut := Some(buffer');
          buffer' := "";
        }
      }
    }
  }

  // ---------- Bytes ----------

  type Byte = b: int | 0 <= b < 256

  /** `byte as char`, for each byte. */
  function Chars(bytes: seq<Byte>): (s: string)
    ensures |s| == |bytes|
    ensures forall i :: 0 <= i < |s| ==> s[i] as int == bytes[i]
  {
    seq(|bytes|, i requires 0 <= i < |bytes| => (bytes[i] as int) as char)
  }

  // ---------- What the loop does with any text ----------

  /** How many backslashes the text ends in. */
  function Backslashes(text: string): nat {
    if text == [] || text[|text| - 1] != '\\' then 0 else 1 + Backslashes(text[..|text| - 1])
  }

  /** A character behind this text is escaped: an odd number of backslashes comes right before it. */
  predicate Escaped(text: string) { Backslashes(text) % 2 == 1 }

  /** The quotes in the text that are not escaped. */
  function Quotes(text: string): nat {
    if text == [] then 0
    else
      var front, c := text[..|text| - 1], text[|text| - 1];
      Quotes(front) + (if c == '"' && !Escaped(front) then 1 else 0)
  }

  predicate InQuotes(text: string) { Quotes(text) % 2 == 1 }

  /** Opening minus closing braces, without those that are escaped or between quotes. */
  function Balance(text: string): int {
    if text == [] then 0
    else
      var front, c := text[..|text| - 1], text[|text| - 1];
      Balance(front)
      + (if Escaped(front) || InQuotes(front) then 0 else if c == '{' then 1 else if c == '}' then -1 else 0)
  }

  /** The `i`-th character ends a piece: a closing brace, neither escaped nor between quotes, that balances the braces
      so far, in 32 bits. */
  predicate Completes(text: string, i: nat) {
    && i < |text| && text[i] == '}' && !Escaped(text[..i]) && !InQuotes(text[..i])
    && Balance(text[..i + 1]) % 0x1_0000_0000 == 0
  }

  function PieceStart(at: seq<nat>, k: nat): nat
    requires k <= |at|
  {
    if k == 0 then 0 else at[k - 1] + 1
  }

  /** `at` are the characters that end pieces, `cuts` the pieces, and `rest` what follows the last of them. */
  ghost predicate CutInto(text: string, at: seq<nat>, cuts: seq<string>, rest: string) {
    && (forall i: nat :: i in at <==> Completes(text, i))
    && (forall k, l :: 0 <= k < l < |at| ==> at[k] < at[l])
    && |cuts| == |at| && (forall k: nat :: k < |at| ==> PieceAt(text, at, k, cuts[k]))
    && PieceStart(at, |at|) <= |text| && rest == text[PieceStart(at, |at|)..]
  }

  ghost predicate PieceAt(text: string, at: seq<nat>, k: nat, piece: string) {
    k < |at| && PieceStart(at, k) <= at[k] < |text| && piece == text[PieceStart(at, k)..at[k] + 1]
  }

  /** Wrapping depends only on the remainder. */
  lemma WrapStep(n: int, k: int)
    requires k == 1 || k == -1
    ensures Wrap32(Wrap32(n) + k) == Wrap32(n + k)
  {
    var m := Wrap32(n);
    var q := n / 0x1_0000_0000 + if m < 0 then 1 else 0;
    assert n == m + q * 0x1_0000_0000;
    SameRemainder(m + k, q);
  }

  lemma SameRemainder(a: int, q: int)
    ensures Wrap32(a + q * 0x1_0000_0000) == Wrap32(a)
  {
  }

  lemma WrapZero(n: int)
    ensures Wrap32(n) == 0 <==> n % 0x1_0000_0000 == 0
  {
  }

  /** What the scanner knows after a text. */
  ghost predicate Knows(s: State, text: string) {
    s.escape == Escaped(text) && s.inString == InQuotes(text) && s.depth == Wrap32(Balance(text))
  }

  lemma KnowsNext(s: State, text: string, c: char)
    requires Knows(s, text)
    ensures Knows(Next(s, c).0, text + [c])
    ensures Next(s, c).1.Some? <==> Completes(text + [c], |text|)
  {
    var more := text + [c];
    assert more[..|more| - 1] == text && more[..|text|] == text && more[..|text| + 1] == more;
    WrapStep(Balance(text), 1);
    WrapStep(Balance(text), -1);
    WrapZero(Balance(text) - 1);
  }

  lemma CompletesEarlier(text: string, c: char, i: nat)
    requires i < |text|
    ensures Completes(text + [c], i) <==> Completes(text, i)
  {
    assert (text + [c])[..i] == text[..i] && (text + [c])[..i + 1] == text[..i + 1];
  }

  lemma CutIntoMore(text: string, at: seq<nat>, cuts: seq<string>, rest: string, c: char)
    requires CutInto(text, at, cuts, rest) && !Completes(text + [c], |text|)
    ensures CutInto(text + [c], at, cuts, rest + [c])
  {
    var more := text + [c];
    forall i: nat ensures i in at <==> Completes(more, i) {
      if i < |text| { CompletesEarlier(text, c, i); }
    }
    forall k: nat | k < |at| ensures PieceAt(more, at, k, cuts[k]) { assert PieceAt(text, at, k, cuts[k]); }
  }

  lemma PiecesOneMore(text: string, at: seq<nat>, cuts: seq<string>, rest: string, c: char)
    requires CutInto(text, at, cuts, rest)
    ensures forall k: nat :: k < |at| + 1 ==> PieceAt(text + [c], at + [|text|], k, (cuts + [rest + [c]])[k])
  {
    var more, bt, pieces := text + [c], at + [|text|], cuts + [rest + [c]];
    forall k: nat | k < |at| ensures PieceAt(more, bt, k, pieces[k]) {
      assert PieceAt(text, at, k, cuts[k]);
      assert PieceStart(bt, k) == PieceStart(at, k);
    }
    assert PieceStart(bt, |at|) == PieceStart(at, |at|);
    assert PieceAt(more, bt, |at|, pieces[|at|]);
  }

  lemma CutIntoOneMore(text: string, at: seq<nat>, cuts: seq<string>, rest: string, c: char)
    requires CutInto(text, at, cuts, rest) && Completes(text + [c], |text|)
    ensures CutInto(text + [c], at + [|text|], cuts + [rest + [c]], "")
  {
    var more, bt := text + [c], at + [|text|];
    forall i: nat ensures i in bt <==> Completes(more, i) {
      if i < |text| { CompletesEarlier(text, c, i); }
    }
    PiecesOneMore(text, at, cuts, rest, c);
    forall k, l | 0 <= k < l < |bt| ensures bt[k] < bt[l] {
      assert bt[k] in at;
    }
  }

  /** Any text: the scanner knows whether it is behind an odd number of backslashes, between quotes, and how the braces
      balance, and it cuts exactly behind the characters that complete a piece. */
  lemma {:induction false} FeedCutsPieces(text: string) returns (at: seq<nat>)
    ensures Knows(Feed(INIT, text).0, text)
    ensures CutInto(text, at, Feed(INIT, text).1, Feed(INIT, text).0.buffer)
  {
    at := [];
    if text != [] {
      var front, c := text[..|text| - 1], text[|text| - 1];
      assert text == front + [c];
      at := FeedCutsPieces(front);
      var (t, cuts) := Feed(INIT, front);
      KnowsNext(t, front, c);
      FeedSnoc(INIT, front, c);
      if Completes(text, |front|) {
        CutIntoOneMore(front, at, cuts, t.buffer, c);
        at := at + [|front|];
      } else {
        CutIntoMore(front, at, cuts, t.buffer, c);
      }
    }
  }

  /** The frames are the pieces of the text, trimmed. */
  ghost predicate FramesPieces(text: string, frames: seq<string>, rest: string) {
    exists at, cuts ::
      CutInto(text, at, cuts, rest) && |frames| == |cuts| && forall k :: 0 <= k < |cuts| ==> frames[k] == Trim(cuts[k])
  }

  lemma SubmittedPieces(text: string)
    ensures FramesPieces(text, Submitted(Feed(INIT, text).1), Feed(INIT, text).0.buffer)
  {
    var at := FeedCutsPieces(text);
  }

  /** The loop over all bytes: a cut buffer is trimmed and, unless that leaves nothing, submitted. */
  method Monitor(input: seq<Byte>) returns (frames: seq<string>, rest: string)
    ensures frames == Submitted(Feed(INIT, Chars(input)).1)
    ensures rest == Feed(INIT, Chars(input)).0.buffer
    ensures FramesPieces(Chars(input), frames, rest)
  {
    var buffer, depth, inString, escape := "", 0, false, false;
    frames := [];
    ghost var text, cuts: seq<string> := Chars(input), [];
    var k := 0;
    while k < |input|
      invariant 0 <= k <= |input|
      invariant Feed(INIT, text[..k]) == (State(buffer, depth, inString, escape), cuts)
      invariant frames == Submitted(cuts)
    {
      var c := (input[k] as int) as char;
      assert text[..k + 1] == text[..k] + [c];
      FeedSnoc(INIT, text[..k], c);
      CutIsNotBlank(State(buffer, depth, inString, escape), c);
      var cut;
      buffer, depth, inString, escape, cut := Push(buffer, depth, inString, escape, c);
      if cut.Some? {
        var trimmed := Trim(cut.value);
        SubmittedSnoc(cuts, cut.value);
        cuts := cuts + [cut.value];
        if trimmed != "" {
          frames := frames + [trimmed];
        }
      }
      k := k + 1;
    }
    assert text[..k] == text;
    SubmittedPieces(text);
    return frames, buffer;
  }

  // ---------- Arbitrary bytes ----------

  lemma {:induction false} FeedConcat(s: State, a: string, b: string)
    ensures Feed(s, a + b) == (Feed(Feed(s, a).0, b).0, Feed(s, a).1 + Feed(Feed(s, a).0, b).1)
    decreases |b|
  {
    var t, cuts := Feed(s, a).0, Feed(s, a).1;
    if b == [] {
      assert a + b == a && cuts + [] == cuts;
    } else {
      var front, c := b[..|b| - 1], b[|b| - 1];
      assert b == front + [c];
      Assoc(a, front, [c]);
      FeedConcat(s, a, front);
      FeedSnoc(s, a + front, c);
      FeedSnoc(t, front, c);
      var cut := Next(Feed(t, front).0, c).1;
      if cut.Some? { Assoc(cuts, Feed(t, front).1, [cut.value]); }
    }
  }

  lemma FeedThen(s: State, a: string, t: State, b: string, u: State, cuts: seq<string>)
    requires Feed(s, a) == (t, []) && Feed(t, b) == (u, cuts)
    ensures Feed(s, a + b) == (u, cuts)
  {
    FeedConcat(s, a, b);
    assert [] + cuts == cuts;
  }

  /** Two stretches that cut nothing cut nothing together. */
  lemma FeedQuietly(s: State, a: string, t: State, b: string, u: State)
    requires Feed(s, a) == (t, []) && Feed(t, b) == (u, [])
    ensures Feed(s, a + b) == (u, [])
  {
    FeedConcat(s, a, b);
  }

  lemma ConcatSnoc(parts: seq<string>, p: string)
    ensures Concat(parts + [p]) == Concat(parts) + p
  {
    assert (parts + [p])[..|parts|] == parts;
  }

  /** A part of the stream that is cut as one object when read on its own. */
  ghost predicate OneObject(cut: string) {
    cut != [] && Feed(INIT, cut) == (INIT, [cut])
  }

  ghost predicate EachOneObject(cuts: seq<string>) {
    forall i :: 0 <= i < |cuts| ==> OneObject(cuts[i])
  }

  ghost predicate Partition(input: string, t: State, cuts: seq<string>) {
    Concat(cuts) + t.buffer == input && EachOneObject(cuts) && Feed(INIT, t.buffer) == (t, [])
  }

  lemma EachOneObjectSnoc(cuts: seq<string>, b: string)
    requires EachOneObject(cuts) && OneObject(b)
    ensures EachOneObject(cuts + [b])
  {
  }

  lemma BufferStep(t: State, c: char)
    requires Feed(INIT, t.buffer) == (t, [])
    ensures var (u, cut) := Next(t, c);
      if cut.Some? then u == INIT && cut.value == t.buffer + [c] && OneObject(cut.value)
      else u.buffer == t.buffer + [c] && Feed(INIT, u.buffer) == (u, [])
  {
    FeedSnoc(INIT, t.buffer, c);
    assert [] + [t.buffer + [c]] == [t.buffer + [c]];
  }

  lemma PartitionStep(input: string, t: State, cuts: seq<string>, c: char)
    requires Partition(input, t, cuts)
    ensures Partition(input + [c], Next(t, c).0, Add(cuts, Next(t, c).1))
  {
    var b := t.buffer + [c];
    BufferStep(t, c);
    var joined := Concat(cuts);
    Assoc(joined, t.buffer, [c]);
    if Next(t, c).1.Some? {
      ConcatSnoc(cuts, b);
      assert joined + b + "" == joined + b;
      EachOneObjectSnoc(cuts, b);
    }
  }

  /** For any bytes at all: the cuts followed by the buffer are the bytes consumed, every cut read on its own is one
      object, and what remains read on its own yields none. So a cut leaves the framer as new. */
  lemma {:induction false} CutsPartitionStream(input: string)
    ensures Partition(input, Feed(INIT, input).0, Feed(INIT, input).1)
  {
    if input == [] {
      assert Concat([]) + "" == "";
    } else {
      var before, c := input[..|input| - 1], input[|input| - 1];
      CutsPartitionStream(before);
      assert input == before + [c];
      PartitionSnoc(before, c);
    }
  }

  lemma PartitionSnoc(before: string, c: char)
    requires Partition(before, Feed(INIT, before).0, Feed(INIT, before).1)
    ensures Partition(before + [c], Feed(INIT, before + [c]).0, Feed(INIT, before + [c]).1)
  {
    PartitionStep(before, Feed(INIT, before).0, Feed(INIT, before).1, c);
    FeedSnoc(INIT, before, c);
  }

  // ---------- JSON text (RFC 8259, sections 2, 4 and 7) ----------

  datatype StringItem = Plain(c: char) | Escape(c: char) | Unicode(hex: string)

  /** Concrete syntax: every optional run of whitespace is part of the tree. `text` is a number or a literal name;
      `blank` is the whitespace of an empty array or object. */
  datatype Value =
    | Scalar(text: string)
    | Str(chars: seq<StringItem>)
    | Array(blank: string, items: seq<Item>)
    | Object(blank: string, members: seq<Member>)

  datatype Item = Item(before: string, value: Value, after: string)

  datatype Member = Member(
    before: string, name: seq<StringItem>, afterName: string, beforeValue: string, value: Value, after: string)

  predicate JsonSpace(s: string) { forall i :: 0 <= i < |s| ==> s[i] in {' ', '\t', '\n', '\r'} }

  predicate IsHex(c: char) { '0' <= c <= '9' || 'a' <= c <= 'f' || 'A' <= c <= 'F' }

  predicate ValidItem(x: StringItem) {
    match x
    case Plain(c) => c >= ' ' && c != '"' && c != '\\'
    case Escape(c) => c in {'"', '\\', '/', 'b', 'f', 'n', 'r', 't'}
    case Unicode(h) => |h| == 4 && forall i :: 0 <= i < |h| ==> IsHex(h[i])
  }

  predicate ValidString(s: seq<StringItem>) { forall i :: 0 <= i < |s| ==> ValidItem(s[i]) }

  /** Text with no character the framer reacts to; every JSON number and literal name is such a text. */
  predicate Inert(s: string) { forall i :: 0 <= i < |s| ==> s[i] !in {'"', '\\', '{', '}'} }

  function PrintItem(x: StringItem): string {
    match x
    case Plain(c) => [c]
    case Escape(c) => ['\\', c]
    case Unicode(h) => ['\\', 'u'] + h
  }

  function PrintChars(s: seq<StringItem>): string {
    if s == [] then "" else PrintItem(s[0]) + PrintChars(s[1..])
  }

  function PrintString(s: seq<StringItem>): string { "\"" + (PrintChars(s) + "\"") }

  function Print(v: Value): string
    decreases v, 1
  {
    match v
    case Scalar(text) => text
    case Str(chars) => PrintString(chars)
    case Array(blank, items) => "[" + ((if items == [] then blank else PrintItems(items)) + "]")
    case Object(_, _) => "{" + (Body(v) + "}")
  }

  /** What stands between an object's braces. */
  function Body(v: Value): string
    requires v.Object?
    decreases v, 0
  {
    if v.members == [] then v.blank else PrintMembers(v.members)
  }

  function PrintItems(items: seq<Item>): string
    decreases items, 0
  {
    if items == [] then ""
    else
      var x := items[0];
      (x.before + (Print(x.value) + x.after)) + ((if |items| == 1 then "" else ",") + PrintItems(items[1..]))
  }

  /** A member up to its value. */
  function MemberHead(m: Member): string {
    m.before + (PrintString(m.name) + (m.afterName + (":" + m.beforeValue)))
  }

  function PrintMember(m: Member): string
    decreases m, 0
  {
    MemberHead(m) + (Print(m.value) + m.after)
  }

  function PrintMembers(members: seq<Member>): string
    decreases members, 0
  {
    if members == [] then ""
    else
      PrintMember(members[0]) + ((if |members| == 1 then "" else ",") + PrintMembers(members[1..]))
  }

  const MAX_NESTING := 0x1_0000_0000

  /** JSON text as the grammar has it, however deep. */
  predicate WellFormed(v: Value)
    decreases v, 1
  {
    match v
    case Scalar(text) => Inert(text)
    case Str(chars) => ValidString(chars)
    case Array(blank, items) => JsonSpace(blank) && WellFormedItems(items)
    case Object(blank, members) => JsonSpace(blank) && WellFormedMembers(members)
  }

  predicate WellFormedItems(items: seq<Item>)
    decreases items, 0
  {
    items == [] ||
    (JsonSpace(items[0].before) && JsonSpace(items[0].after) && WellFormed(items[0].value) &&
      WellFormedItems(items[1..]))
  }

  predicate WellFormedMembers(members: seq<Member>)
    decreases members, 0
  {
    members == [] ||
    var m := members[0];
    (JsonSpace(m.before) && JsonSpace(m.afterName) && JsonSpace(m.beforeValue) && JsonSpace(m.after)
     && ValidString(m.name) && WellFormed(m.value) && WellFormedMembers(members[1..]))
  }

  function Max(a: nat, b: nat): nat { if a < b then b else a }

  /** How many objects are nested in each other, at most. */
  function Nesting(v: Value): nat
    decreases v, 1
  {
    match v
    case Scalar(_) => 0
    case Str(_) => 0
    case Array(_, items) => NestingItems(items)
    case Object(_, members) => 1 + NestingMembers(members)
  }

  function NestingItems(items: seq<Item>): nat
    decreases items, 0
  {
    if items == [] then 0 else Max(Nesting(items[0].value), NestingItems(items[1..]))
  }

  function NestingMembers(members: seq<Member>): nat
    decreases members, 0
  {
    if members == [] then 0 else Max(Nesting(members[0].value), NestingMembers(members[1..]))
  }

  /** Well-formed JSON whose objects, when printed inside `d` enclosing objects, nest at most `MAX_NESTING` deep. */
  predicate Valid(v: Value, d: nat) { WellFormed(v) && d + Nesting(v) <= MAX_NESTING }

  predicate ValidItems(items: seq<Item>, d: nat) { WellFormedItems(items) && d + NestingItems(items) <= MAX_NESTING }

  predicate ValidMembers(members: seq<Member>, d: nat) {
    WellFormedMembers(members) && d + NestingMembers(members) <= MAX_NESTING
  }

  // ---------- Framing well-formed JSON ----------

  function At(buffer: string, d: nat): State { State(buffer, Wrap32(d), false, false) }

  /** Read inside `d` objects, the text is buffered, nothing is cut, and the scanner ends as it began. */
  ghost predicate Passes(text: string, d: nat) {
    forall b :: Feed(At(b, d), text) == (At(b + text, d), [])
  }

  lemma PassesConcat(a: string, b: string, d: nat)
    requires Passes(a, d) && Passes(b, d)
    ensures Passes(a + b, d)
  {
    forall x ensures Feed(At(x, d), a + b) == (At(x + (a + b), d), []) {
      Assoc(x, a, b);
      FeedQuietly(At(x, d), a, At(x + a, d), b, At(x + a + b, d));
    }
  }

  lemma {:induction false} InertPasses(text: string, d: nat)
    requires Inert(text)
    ensures Passes(text, d)
  {
    if text == [] {
      forall x ensures Feed(At(x, d), text) == (At(x + text, d), []) { assert x + text == x; }
    } else {
      var n := |text| - 1;
      var front := text[..n];
      InertPasses(front, d);
      forall x ensures Feed(At(x, d), text) == (At(x + text, d), []) {
        assert Feed(At(x, d), front) == (At(x + front, d), []);
        assert x + front + [text[n]] == x + text;
      }
    }
  }

  function InStr(buffer: string, d: nat): State { State(buffer, Wrap32(d), true, false) }

  lemma FeedOne(s: State, c: char)
    ensures Feed(s, [c]) == (Next(s, c).0, Add([], Next(s, c).1))
  {
    assert [c][..0] == "";
  }

  lemma {:induction false} TextInString(s: string, b: string, d: nat)
    requires forall i :: 0 <= i < |s| ==> s[i] != '"' && s[i] != '\\'
    ensures Feed(InStr(b, d), s) == (InStr(b + s, d), [])
  {
    if s == [] {
      assert b + s == b;
    } else {
      var front, c := s[..|s| - 1], s[|s| - 1];
      TextInString(front, b, d);
      assert s == front + [c];
      FeedSnoc(InStr(b, d), front, c);
      Assoc(b, front, [c]);
    }
  }

  lemma ItemInString(x: StringItem, b: string, d: nat)
    requires ValidItem(x)
    ensures Feed(InStr(b, d), PrintItem(x)) == (InStr(b + PrintItem(x), d), [])
  {
    if x.Plain? {
      TextInString([x.c], b, d);
    } else {
      var second, tail := PrintItem(x)[1], PrintItem(x)[2..];
      assert PrintItem(x) == ['\\', second] + tail;
      EscapeInString(second, b, d);
      var b2 := b + ['\\', second];
      TextInString(tail, b2, d);
      FeedQuietly(InStr(b, d), ['\\', second], InStr(b2, d), tail, InStr(b2 + tail, d));
      Assoc(b, ['\\', second], tail);
    }
  }

  lemma EscapeInString(c: char, b: string, d: nat)
    ensures Feed(InStr(b, d), ['\\', c]) == (InStr(b + ['\\', c], d), [])
  {
    var mid := State(b + ['\\'], Wrap32(d), true, true);
    FeedOne(InStr(b, d), '\\');
    FeedOne(mid, c);
    FeedQuietly(InStr(b, d), ['\\'], mid, [c], InStr(b + ['\\'] + [c], d));
    assert ['\\'] + [c] == ['\\', c] && b + ['\\'] + [c] == b + ['\\', c];
  }

  lemma {:induction false} CharsInString(s: seq<StringItem>, b: string, d: nat)
    requires ValidString(s)
    ensures Feed(InStr(b, d), PrintChars(s)) == (InStr(b + PrintChars(s), d), [])
    decreases |s|
  {
    if s == [] {
      assert b + "" == b;
    } else {
      var a, rest := PrintItem(s[0]), PrintChars(s[1..]);
      ItemInString(s[0], b, d);
      CharsInString(s[1..], b + a, d);
      FeedQuietly(InStr(b, d), a, InStr(b + a, d), rest, InStr(b + a + rest, d));
      Assoc(b, a, rest);
    }
  }

  lemma Quote(s: State)
    requires !s.escape
    ensures Feed(s, "\"") == (s.(buffer := s.buffer + "\"", inString := !s.inString), [])
  {
    FeedOne(s, '"');
  }

  lemma StringPasses(s: seq<StringItem>, d: nat)
    requires ValidString(s)
    ensures Passes(PrintString(s), d)
  {
    var body := PrintChars(s);
    forall b ensures Feed(At(b, d), PrintString(s)) == (At(b + PrintString(s), d), []) {
      var b1 := b + "\"";
      var b2 := b1 + body;
      Quote(At(b, d));
      CharsInString(s, b1, d);
      Quote(InStr(b2, d));
      FeedQuietly(InStr(b1, d), body, InStr(b2, d), "\"", At(b2 + "\"", d));
      FeedQuietly(At(b, d), "\"", InStr(b1, d), body + "\"", At(b2 + "\"", d));
      Assoc(b1, body, "\"");
      Assoc(b, "\"", body + "\"");
    }
  }

  lemma SpacePasses(s: string, d: nat)
    requires JsonSpace(s)
    ensures Passes(s, d)
  {
    InertPasses(s, d);
  }

  lemma {:induction false} ValuePasses(v: Value, d: nat)
    requires Valid(v, d) && d >= 1
    ensures Passes(Print(v), d)
    decreases v, 1
  {
    match v
    case Scalar(text) => InertPasses(text, d);
    case Str(chars) => StringPasses(chars, d);
    case Array(blank, items) =>
      var body := if items == [] then blank else PrintItems(items);
      if items == [] { SpacePasses(blank, d); } else { ItemsPass(items, d); }
      InertPasses("[", d);
      InertPasses("]", d);
      PassesConcat(body, "]", d);
      PassesConcat("[", body + "]", d);
    case Object(blank, members) =>
      if members == [] { SpacePasses(blank, d + 1); } else { MembersPass(members, d + 1); }
      BracesPass(Body(v), d);
  }

  lemma {:induction false} ItemsPass(items: seq<Item>, d: nat)
    requires ValidItems(items, d) && d >= 1
    ensures Passes(PrintItems(items), d)
    decreases items, 0
  {
    if items == [] {
      InertPasses("", d);
    } else {
      var x := items[0];
      var sep := if |items| == 1 then "" else ",";
      ValuePasses(x.value, d);
      SpacePasses(x.before, d);
      SpacePasses(x.after, d);
      InertPasses(sep, d);
      ItemsPass(items[1..], d);
      PassesConcat(sep, PrintItems(items[1..]), d);
      PassesConcat(Print(x.value), x.after, d);
      PassesConcat(x.before, Print(x.value) + x.after, d);
      PassesConcat(x.before + (Print(x.value) + x.after), sep + PrintItems(items[1..]), d);
    }
  }

  lemma {:induction false} MembersPass(members: seq<Member>, d: nat)
    requires ValidMembers(members, d) && d >= 1
    ensures Passes(PrintMembers(members), d)
    decreases members, 0
  {
    if members == [] {
      InertPasses("", d);
    } else {
      var m := members[0];
      var sep := if |members| == 1 then "" else ",";
      MemberPasses(m, d);
      InertPasses(sep, d);
      MembersPass(members[1..], d);
      PassesConcat(sep, PrintMembers(members[1..]), d);
      PassesConcat(PrintMember(m), sep + PrintMembers(members[1..]), d);
    }
  }

  lemma HeadPasses(m: Member, d: nat)
    requires JsonSpace(m.before) && JsonSpace(m.afterName) && JsonSpace(m.beforeValue) && ValidString(m.name)
    ensures Passes(MemberHead(m), d)
  {
    StringPasses(m.name, d);
    SpacePasses(m.before, d);
    SpacePasses(m.afterName, d);
    SpacePasses(m.beforeValue, d);
    InertPasses(":", d);
    PassesConcat(":", m.beforeValue, d);
    PassesConcat(m.afterName, ":" + m.beforeValue, d);
    PassesConcat(PrintString(m.name), m.afterName + (":" + m.beforeValue), d);
    PassesConcat(m.before, PrintString(m.name) + (m.afterName + (":" + m.beforeValue)), d);
  }

  lemma MemberPasses(m: Member, d: nat)
    requires WellFormedMembers([m]) && Valid(m.value, d) && d >= 1
    ensures Passes(PrintMember(m), d)
    decreases m
  {
    ValuePasses(m.value, d);
    HeadPasses(m, d);
    SpacePasses(m.after, d);
    PassesConcat(Print(m.value), m.after, d);
    PassesConcat(MemberHead(m), Print(m.value) + m.after, d);
  }

  lemma OpenBrace(b: string, d: nat)
    ensures Feed(At(b, d), "{") == (At(b + "{", d + 1), [])
  {
    FeedOne(At(b, d), '{');
  }

  lemma WrapBack(d: nat)
    ensures Wrap32(Wrap32(d + 1) - 1) == Wrap32(d)
    ensures d < MAX_NESTING ==> (Wrap32(d) == 0 <==> d == 0)
  {
  }

  lemma CloseBrace(b: string, d: nat)
    requires d < MAX_NESTING
    ensures Feed(At(b, d + 1), "}") == if d == 0 then (INIT, [b + "}"]) else (At(b + "}", d), [])
  {
    FeedOne(At(b, d + 1), '}');
    WrapBack(d);
    assert [] + [b + "}"] == [b + "}"];
  }

  lemma ObjectFeed(body: string, b: string, d: nat)
    requires Passes(body, d + 1) && d < MAX_NESTING
    ensures Feed(At(b, d), "{" + (body + "}"))
         == if d == 0 then (INIT, [b + ("{" + (body + "}"))]) else (At(b + ("{" + (body + "}")), d), [])
  {
    OpenBrace(b, d);
    assert Feed(At(b + "{", d + 1), body) == (At(b + "{" + body, d + 1), []);
    CloseBrace(b + "{" + body, d);
    FeedConcat(At(b + "{", d + 1), body, "}");
    FeedConcat(At(b, d), "{", body + "}");
    assert b + "{" + body + "}" == b + ("{" + (body + "}"));
  }

  lemma BracesPass(body: string, d: nat)
    requires Passes(body, d + 1) && 1 <= d < MAX_NESTING
    ensures Passes("{" + (body + "}"), d)
  {
    forall b ensures Feed(At(b, d), "{" + (body + "}")) == (At(b + ("{" + (body + "}")), d), []) {
      ObjectFeed(body, b, d);
    }
  }

  /** An object with whitespace in front of it, as the stream carries it. */
  datatype Framed = Framed(before: string, event: Value)

  predicate ValidStream(events: seq<Framed>) {
    forall i :: 0 <= i < |events| ==>
      JsonSpace(events[i].before) && events[i].event.Object? && Valid(events[i].event, 0)
  }

  function PrintStream(events: seq<Framed>): string {
    if events == [] then ""
    else PrintStream(events[..|events| - 1]) + (events[|events| - 1].before + Print(events[|events| - 1].event))
  }

  lemma SpacedObjectIsCut(before: string, body: string)
    requires Passes(before, 0) && Passes(body, 1)
    ensures Feed(INIT, before + ("{" + (body + "}"))) == (INIT, [before + ("{" + (body + "}"))])
  {
    var text := "{" + (body + "}");
    assert At("", 0) == INIT && "" + before == before;
    assert Feed(At("", 0), before) == (At("" + before, 0), []);
    ObjectFeed(body, before, 0);
    FeedThen(INIT, before, At(before, 0), text, INIT, [before + text]);
  }

  lemma EventIsCut(e: Framed)
    requires JsonSpace(e.before) && e.event.Object? && Valid(e.event, 0)
    ensures Feed(INIT, e.before + Print(e.event)) == (INIT, [e.before + Print(e.event)])
  {
    var v := e.event;
    if v.members == [] { SpacePasses(v.blank, 1); } else { MembersPass(v.members, 1); }
    SpacePasses(e.before, 0);
    SpacedObjectIsCut(e.before, Body(v));
  }

  lemma FeedCut(a: string, cuts: seq<string>, b: string)
    requires Feed(INIT, a) == (INIT, cuts) && Feed(INIT, b) == (INIT, [b])
    ensures Feed(INIT, a + b) == (INIT, cuts + [b])
  {
    FeedConcat(INIT, a, b);
  }

  function Cuts(events: seq<Framed>): (cuts: seq<string>)
    ensures |cuts| == |events|
    ensures forall i :: 0 <= i < |events| ==> cuts[i] == events[i].before + Print(events[i].event)
  {
    seq(|events|, i requires 0 <= i < |events| => events[i].before + Print(events[i].event))
  }

  /** Read from the start, the text is cut into exactly these buffers, with nothing left over. */
  ghost predicate CutsInto(text: string, cuts: seq<string>) {
    forall s :: s == INIT ==> Feed(s, text) == (INIT, cuts)
  }

  lemma {:induction false} StreamCuts(events: seq<Framed>)
    requires ValidStream(events)
    ensures CutsInto(PrintStream(events), Cuts(events))
    decreases |events|
  {
    if events != [] {
      var front, e := events[..|events| - 1], events[|events| - 1];
      StreamCuts(front);
      StreamGrows(PrintStream(front), Cuts(front), e);
      assert Cuts(events) == Cuts(front) + [e.before + Print(e.event)];
    }
  }

  lemma StreamGrows(a: string, cuts: seq<string>, e: Framed)
    requires CutsInto(a, cuts) && JsonSpace(e.before) && e.event.Object? && Valid(e.event, 0)
    ensures CutsInto(a + (e.before + Print(e.event)), cuts + [e.before + Print(e.event)])
  {
    EventIsCut(e);
    assert Feed(INIT, a) == (INIT, cuts);
    FeedCut(a, cuts, e.before + Print(e.event));
  }

  lemma TailStays(tail: string)
    requires JsonSpace(tail)
    ensures Feed(INIT, tail) == (State(tail, 0, false, false), [])
  {
    SpacePasses(tail, 0);
    assert At("", 0) == INIT && "" + tail == tail;
    assert Feed(At("", 0), tail) == (At("" + tail, 0), []);
  }

  // ---------- The nesting bound is exact ----------

  /** Read inside `d` objects, the text is cut, together with what was buffered before it, as one object. */
  ghost predicate CutsAt(text: string, b: string, d: nat) {
    Feed(At(b, d), text) == (INIT, [b + text])
  }

  lemma CutAfter(b: string, d: nat, before: string, e: nat, text: string)
    requires Feed(At(b, d), before) == (At(b + before, e), []) && CutsAt(text, b + before, e)
    ensures CutsAt(before + text, b, d)
  {
    FeedThen(At(b, d), before, At(b + before, e), text, INIT, [b + before + text]);
    Assoc(b, before, text);
  }

  lemma CutAfterPassing(b: string, d: nat, before: string, text: string)
    requires Passes(before, d) && CutsAt(text, b + before, d)
    ensures CutsAt(before + text, b, d)
  {
    assert Feed(At(b, d), before) == (At(b + before, d), []);
    CutAfter(b, d, before, d, text);
  }

  lemma Regroup(before: string, text: string, rest: string, after: string)
    ensures before + ((text + rest) + after) == (before + text) + (rest + after)
  {
  }

  /** Inside as many objects as the counter can count, it is back at zero. */
  lemma CounterWraps(b: string)
    ensures At(b, MAX_NESTING) == At(b, 0)
  {
  }

  /** A well-formed value that nests too deep, printed inside `d` objects, is cut before its end, or, when it is an
      object at the bound itself, at its end. */
  lemma {:induction false} TooDeepIsCut(v: Value, d: nat, b: string) returns (text: string, rest: string)
    requires WellFormed(v) && d + Nesting(v) > MAX_NESTING && d <= MAX_NESTING && (d >= 1 || v.Object?)
    ensures Print(v) == text + rest && CutsAt(text, b, d)
    ensures v.Object? && d < MAX_NESTING ==> rest != ""
    decreases v, 1, if d == MAX_NESTING then 1 else 0
  {
    match v
    case Scalar(_) => assert false;
    case Str(_) => assert false;
    case Array(_, items) =>
      InertPasses("[", d);
      var t, r := ItemsAreCut(items, d, b + "[");
      CutAfterPassing(b, d, "[", t);
      Regroup("[", t, r, "]");
      text, rest := "[" + t, r + "]";
    case Object(_, members) =>
      if d < MAX_NESTING {
        OpenBrace(b, d);
        var t, r := MembersAreCut(members, d + 1, b + "{");
        CutAfter(b, d, "{", d + 1, t);
        Regroup("{", t, r, "}");
        text, rest := "{" + t, r + "}";
      } else {
        CounterWraps(b);
        if Nesting(v) <= MAX_NESTING {
          ObjectCloses(v, b);
          text, rest := Print(v), "";
          EmptyUnit(text);
        } else {
          text, rest := TooDeepIsCut(v, 0, b);
        }
      }
  }

  lemma ObjectCloses(v: Value, b: string)
    requires v.Object? && Valid(v, 0)
    ensures CutsAt(Print(v), b, 0)
  {
    if v.members == [] { SpacePasses(v.blank, 1); } else { MembersPass(v.members, 1); }
    ObjectFeed(Body(v), b, 0);
  }

  lemma {:induction false} ItemsAreCut(items: seq<Item>, d: nat, b: string) returns (text: string, rest: string)
    requires WellFormedItems(items) && d + NestingItems(items) > MAX_NESTING && 1 <= d <= MAX_NESTING
    ensures items != [] && PrintItems(items) == text + rest && CutsAt(text, b, d)
    decreases items, 0, 0
  {
    var x, more := items[0], items[1..];
    var sep := if |items| == 1 then "" else ",";
    var tail := sep + PrintItems(more);
    SpacePasses(x.before, d);
    if d + Nesting(x.value) > MAX_NESTING {
      var t, r := TooDeepIsCut(x.value, d, b + x.before);
      CutAfterPassing(b, d, x.before, t);
      Regroup(x.before, t, r, x.after);
      text, rest := x.before + t, (r + x.after) + tail;
      Assoc(text, r + x.after, tail);
    } else {
      ItemsPass([x], d);
      SingleItem(x);
      var front := x.before + (Print(x.value) + x.after);
      InertPasses(sep, d);
      PassesConcat(front, sep, d);
      var t, r := ItemsAreCut(more, d, b + (front + sep));
      CutAfterPassing(b, d, front + sep, t);
      text, rest := (front + sep) + t, r;
      JoinTail(front, sep, t, r);
    }
  }

  lemma SingleItem(x: Item)
    ensures PrintItems([x]) == x.before + (Print(x.value) + x.after)
  {
    EmptyUnit(x.before + (Print(x.value) + x.after));
    assert [x][1..] == [] && "" + "" == "";
  }

  lemma JoinTail(front: string, sep: string, t: string, r: string)
    ensures front + (sep + (t + r)) == ((front + sep) + t) + r
  {
  }

  lemma {:induction false} MembersAreCut(members: seq<Member>, d: nat, b: string) returns (text: string, rest: string)
    requires WellFormedMembers(members) && d + NestingMembers(members) > MAX_NESTING && 1 <= d <= MAX_NESTING
    ensures members != [] && PrintMembers(members) == text + rest && CutsAt(text, b, d)
    decreases members, 0, 0
  {
    var m, more := members[0], members[1..];
    var sep := if |members| == 1 then "" else ",";
    var tail := sep + PrintMembers(more);
    if d + Nesting(m.value) > MAX_NESTING {
      HeadPasses(m, d);
      var t, r := TooDeepIsCut(m.value, d, b + MemberHead(m));
      CutAfterPassing(b, d, MemberHead(m), t);
      Regroup(MemberHead(m), t, r, m.after);
      text, rest := MemberHead(m) + t, (r + m.after) + tail;
      Assoc(text, r + m.after, tail);
    } else {
      assert [m][1..] == [];
      MemberPasses(m, d);
      InertPasses(sep, d);
      PassesConcat(PrintMember(m), sep, d);
      var t, r := MembersAreCut(more, d, b + (PrintMember(m) + sep));
      CutAfterPassing(b, d, PrintMember(m) + sep, t);
      text, rest := (PrintMember(m) + sep) + t, r;
      JoinTail(PrintMember(m), sep, t, r);
    }
  }

  // ---------- The bytes of a text ----------

  /** The UTF-8 encoding of a character (RFC 3629, section 3): six bits of its number in each byte after the first. */
  function Utf8Char(c: char): (bytes: seq<Byte>)
    ensures 1 <= |bytes| <= 4
    ensures |bytes| == 1 <==> c as int < 0x80
    ensures |bytes| == 1 ==> bytes[0] == c as int
    ensures |bytes| > 1 ==> forall i :: 0 <= i < |bytes| ==> bytes[i] >= 0x80
  {
    var n := c as int;
    var n1 := n / 0x40;
    var n2 := n1 / 0x40;
    if n < 0x80 then [n]
    else if n < 0x800 then [0xC0 + n1, 0x80 + n % 0x40]
    else if n < 0x1_0000 then [0xE0 + n2, 0x80 + n1 % 0x40, 0x80 + n % 0x40]
    else [0xF0 + n2 / 0x40, 0x80 + n2 % 0x40, 0x80 + n1 % 0x40, 0x80 + n % 0x40]
  }

  /** The number an encoding of one to four bytes stands for. */
  function CodePoint(bytes: seq<Byte>): int
    requires 1 <= |bytes| <= 4
  {
    var b0: int := bytes[0];
    if |bytes| == 1 then b0
    else
      var b1: int := bytes[1];
      if |bytes| == 2 then (b0 - 0xC0) * 0x40 + (b1 - 0x80)
      else
        var b2: int := bytes[2];
        if |bytes| == 3 then ((b0 - 0xE0) * 0x40 + (b1 - 0x80)) * 0x40 + (b2 - 0x80)
        else
          var b3: int := bytes[3];
          (((b0 - 0xF0) * 0x40 + (b1 - 0x80)) * 0x40 + (b2 - 0x80)) * 0x40 + (b3 - 0x80)
  }

  lemma Utf8CharDecodes(c: char)
    ensures CodePoint(Utf8Char(c)) == c as int
  {
  }

  function Utf8(s: string): seq<Byte> {
    if s == "" then [] else Utf8(s[..|s| - 1]) + Utf8Char(s[|s| - 1])
  }

  /** What the framer takes the bytes of a text for. */
  function Received(s: string): string { Chars(Utf8(s)) }

  predicate Ascii(s: string) { forall i :: 0 <= i < |s| ==> s[i] as int < 0x80 }

  lemma ReceivedSnoc(s: string, c: char)
    ensures Received(s + [c]) == Received(s) + Chars(Utf8Char(c))
  {
    assert (s + [c])[..|s|] == s;
    assert Chars(Utf8(s) + Utf8Char(c)) == Chars(Utf8(s)) + Chars(Utf8Char(c));
  }

  lemma {:induction false} ReceivedConcat(a: string, b: string)
    ensures Received(a + b) == Received(a) + Received(b)
    decreases |b|
  {
    if b == "" {
      EmptyUnit(a);
      EmptyUnit(Received(a));
    } else {
      var front, c := b[..|b| - 1], b[|b| - 1];
      assert b == front + [c];
      Assoc(a, front, [c]);
      ReceivedConcat(a, front);
      ReceivedSnoc(a + front, c);
      ReceivedSnoc(front, c);
      Assoc(Received(a), Received(front), Chars(Utf8Char(c)));
    }
  }

  /** A text is taken for itself exactly when it is ASCII; otherwise for a longer one. */
  lemma {:induction false} ReceivedIff(s: string)
    ensures |Received(s)| >= |s|
    ensures Received(s) == s <==> Ascii(s)
    ensures |Received(s)| == |s| <==> Ascii(s)
  {
    if s != "" {
      var front, c := s[..|s| - 1], s[|s| - 1];
      ReceivedIff(front);
      assert s == front + [c];
      ReceivedSnoc(front, c);
      AsciiSnoc(front, c);
      if c as int < 0x80 { assert Chars(Utf8Char(c)) == [c]; }
    }
  }

  lemma AsciiSnoc(s: string, c: char)
    ensures Ascii(s + [c]) <==> Ascii(s) && c as int < 0x80
  {
    var t := s + [c];
    assert t[|s|] == c;
    assert forall i :: 0 <= i < |s| ==> t[i] == s[i];
  }

  function ReceivedState(s: State): State { s.(buffer := Received(s.buffer)) }

  function ReceivedAll(cuts: seq<string>): (r: seq<string>)
    ensures |r| == |cuts| && forall i :: 0 <= i < |r| ==> r[i] == Received(cuts[i])
  {
    seq(|cuts|, i requires 0 <= i < |cuts| => Received(cuts[i]))
  }

  lemma HighByte(s: State, c: char)
    requires c as int >= 0x80
    ensures Next(s, c) == (s.(buffer := s.buffer + [c], escape := false), None)
  {
  }

  /** Characters beyond ASCII end an escape and do nothing else. */
  lemma {:induction false} HighBytes(s: State, text: string)
    requires text != "" && forall i :: 0 <= i < |text| ==> text[i] as int >= 0x80
    ensures Feed(s, text) == (s.(buffer := s.buffer + text, escape := false), [])
    decreases |text|
  {
    var front, c := text[..|text| - 1], text[|text| - 1];
    assert text == front + [c];
    if front == "" {
      assert text == [c];
      FeedOne(s, c);
      HighByte(s, c);
    } else {
      HighBytes(s, front);
      FeedSnoc(s, front, c);
      HighByte(s.(buffer := s.buffer + front, escape := false), c);
      Assoc(s.buffer, front, [c]);
    }
  }

  lemma AsciiByte(b: string, c: char)
    requires c as int < 0x80
    ensures Chars(Utf8Char(c)) == [c] && Received(b + [c]) == Received(b) + [c] && Received("") == ""
  {
    assert Chars(Utf8Char(c)) == [c];
    ReceivedSnoc(b, c);
  }

  lemma AsciiNext(s: State, c: char)
    requires Received(s.buffer + [c]) == Received(s.buffer) + [c] && Received("") == ""
    ensures Next(ReceivedState(s), c)
         == (ReceivedState(Next(s, c).0), if Next(s, c).1.Some? then Some(Received(Next(s, c).1.value)) else None)
  {
  }

  lemma AsciiSimulates(s: State, c: char)
    requires c as int < 0x80
    ensures Feed(ReceivedState(s), Chars(Utf8Char(c)))
         == (ReceivedState(Next(s, c).0), if Next(s, c).1.Some? then [Received(Next(s, c).1.value)] else [])
  {
    AsciiByte(s.buffer, c);
    FeedOne(ReceivedState(s), c);
    AsciiNext(s, c);
    if Next(s, c).1.Some? { AddFirst(Received(Next(s, c).1.value)); }
  }

  lemma HighSimulates(s: State, c: char)
    requires c as int >= 0x80
    ensures Feed(ReceivedState(s), Chars(Utf8Char(c))) == (ReceivedState(Next(s, c).0), []) && Next(s, c).1 == None
  {
    ReceivedSnoc(s.buffer, c);
    HighByte(s, c);
    HighBytes(ReceivedState(s), Chars(Utf8Char(c)));
  }

  /** One character and its bytes have the same effect. */
  lemma CharSimulates(s: State, c: char)
    ensures Feed(ReceivedState(s), Chars(Utf8Char(c)))
         == (ReceivedState(Next(s, c).0), if Next(s, c).1.Some? then [Received(Next(s, c).1.value)] else [])
  {
    if c as int < 0x80 { AsciiSimulates(s, c); } else { HighSimulates(s, c); }
  }

  lemma AddFirst(cut: string)
    ensures Add([], Some(cut)) == [cut]
  {
  }

  lemma EmptyReceived()
    ensures Received("") == ""
  {
  }

  /** Reading the bytes of any text simulates reading the text: the same cuts, each taken for what its bytes spell. */
  lemma {:induction false} BytesSimulateText(s: State, text: string)
    ensures Feed(ReceivedState(s), Received(text)) == (ReceivedState(Feed(s, text).0), ReceivedAll(Feed(s, text).1))
    decreases |text|
  {
    if text != "" {
      var front, c := text[..|text| - 1], text[|text| - 1];
      assert text == front + [c];
      BytesSimulateText(s, front);
      FeedSnoc(s, front, c);
      CharSimulates(Feed(s, front).0, c);
      ReceivedSnoc(front, c);
      FeedConcat(ReceivedState(s), Received(front), Chars(Utf8Char(c)));
      ReceivedAdd(Feed(s, front).1, Next(Feed(s, front).0, c).1);
    }
  }

  lemma ReceivedAdd(cuts: seq<string>, cut: Option<string>)
    ensures ReceivedAll(Add(cuts, cut)) == ReceivedAll(cuts) + (if cut.Some? then [Received(cut.value)] else [])
  {
  }

  // ---------- Exactly when objects are submitted as themselves ----------

  /** What the framer hands to the JSON parser for a text sent as UTF-8. */
  function SubmittedBytes(text: string): seq<string> { Submitted(Feed(INIT, Chars(Utf8(text))).1) }

  lemma SubmittedCuts(text: string)
    ensures SubmittedBytes(text) == Submitted(ReceivedAll(Feed(INIT, text).1))
  {
    EmptyReceived();
    BytesSimulateText(INIT, text);
  }

  lemma SpaceReceived(s: string)
    requires JsonSpace(s)
    ensures Received(s) == s
  {
    ReceivedIff(s);
  }

  lemma ReceivedEnds(text: string)
    requires text != "" && text[0] as int < 0x80 && text[|text| - 1] as int < 0x80
    ensures var r := Received(text); r != "" && r[0] == text[0] && r[|r| - 1] == text[|text| - 1]
  {
    var head, tail := text[..1], text[1..];
    assert text == head + tail;
    ReceivedConcat(head, tail);
    ReceivedIff(head);
    var front, c := text[..|text| - 1], text[|text| - 1];
    assert text == front + [c];
    ReceivedSnoc(front, c);
  }

  /** A cut that is a spaced text in braces is submitted as what the bytes of the text are taken for. */
  lemma CutReceived(before: string, text: string)
    requires JsonSpace(before) && text != "" && text[0] == '{' && text[|text| - 1] == '}'
    ensures Trim(Received(before + text)) == Received(text)
  {
    ReceivedConcat(before, text);
    SpaceReceived(before);
    ReceivedEnds(text);
    TrimPadded(before, Received(text), "");
    EmptyUnit(before + Received(text));
  }

  lemma CutEndsInBrace(s: State, text: string, cut: string)
    requires Feed(s, text) == (INIT, [cut]) && text != ""
    ensures text[|text| - 1] == '}'
  {
    var front, c := text[..|text| - 1], text[|text| - 1];
    assert text == front + [c];
    FeedSnoc(s, front, c);
    assert Next(Feed(s, front).0, c).0.buffer == "";
  }

  predicate WellFormedEvent(e: Framed) { JsonSpace(e.before) && e.event.Object? && WellFormed(e.event) }

  predicate WellFormedStream(events: seq<Framed>) { forall i :: 0 <= i < |events| ==> WellFormedEvent(events[i]) }

  /** How the framer, starting anew, meets a spaced well-formed object: the first cut takes the whitespace and a part of
      the object, all of it exactly when the object does not nest too deep. */
  lemma FirstCut(e: Framed) returns (text: string, rest: string)
    requires WellFormedEvent(e)
    ensures Print(e.event) == text + rest && (rest == "" <==> Nesting(e.event) <= MAX_NESTING)
    ensures Feed(INIT, e.before + text) == (INIT, [e.before + text])
    ensures text != "" && text[0] == '{' && text[|text| - 1] == '}'
  {
    if Nesting(e.event) <= MAX_NESTING {
      EventIsCut(e);
      text, rest := Print(e.event), "";
      EmptyUnit(text);
    } else {
      text, rest := TooDeepIsCut(e.event, 0, e.before);
      SpaceThenCut(e.before, text);
      CutIsNotEmpty(e.before, text);
      CutEndsInBrace(At(e.before, 0), text, e.before + text);
      assert (text + rest)[0] == text[0];
    }
  }

  lemma SpaceThenCut(before: string, text: string)
    requires JsonSpace(before) && CutsAt(text, before, 0)
    ensures Feed(INIT, before + text) == (INIT, [before + text])
  {
    SpacePasses(before, 0);
    assert At("", 0) == INIT && "" + before == before;
    assert Feed(At("", 0), before) == (At("" + before, 0), []);
    FeedThen(INIT, before, At(before, 0), text, INIT, [before + text]);
  }

  lemma CutIsNotEmpty(b: string, text: string)
    requires CutsAt(text, b, 0)
    ensures text != ""
  {
  }

  /** What is submitted for it is the object itself exactly when it does not nest too deep and is ASCII. */
  lemma FirstSubmittedIff(e: Framed, text: string, rest: string)
    requires Print(e.event) == text + rest && text != "" && Feed(INIT, e.before + text) == (INIT, [e.before + text])
    requires JsonSpace(e.before)
    ensures Received(text) == text + rest <==> rest == "" && Ascii(text)
  {
    ReceivedIff(text);
    EmptyUnit(text);
    if rest != "" && Received(text) == text + rest {
      EarlierCut(e.before, text, rest);
    }
  }

  /** The bytes of a text that is cut as one object cannot spell a longer text that starts with it: that text would be
      cut where the first ends. */
  lemma EarlierCut(before: string, text: string, rest: string)
    requires JsonSpace(before) && rest != "" && Feed(INIT, before + text) == (INIT, [before + text])
    ensures Received(text) != text + rest
  {
    SpaceReceived(before);
    ReceivedConcat(before, text);
    Assoc(before, text, rest);
    SubmittedOnce(before + text);
    FeedConcat(INIT, before + text, rest);
    assert Feed(INIT, (before + text) + rest).1[0] == before + text;
    assert |before + text| < |(before + text) + rest|;
  }

  lemma SubmittedOnce(cut: string)
    requires Feed(INIT, cut) == (INIT, [cut])
    ensures Feed(INIT, Received(cut)).1 == [Received(cut)]
  {
    EmptyReceived();
    BytesSimulateText(INIT, cut);
  }

  /** The text of each event. */
  function Texts(events: seq<Framed>): (r: seq<string>)
    ensures |r| == |events| && forall i :: 0 <= i < |r| ==> r[i] == Print(events[i].event)
  {
    seq(|events|, i requires 0 <= i < |events| => Print(events[i].event))
  }

  lemma CutsReceived(events: seq<Framed>)
    requires forall i :: 0 <= i < |events| ==> JsonSpace(events[i].before) && events[i].event.Object?
    ensures Submitted(ReceivedAll(Cuts(events))) == ReceivedAll(Texts(events))
  {
    forall i | 0 <= i < |events| ensures Trim(Received(Cuts(events)[i])) == Received(Texts(events)[i]) {
      var text := Print(events[i].event);
      assert text[0] == '{' && text[|text| - 1] == '}';
      CutReceived(events[i].before, text);
    }
  }

  /** A stream of JSON objects, sent as UTF-8 and separated by JSON whitespace, is submitted object by object, in order,
      each as the text its bytes are taken for; only the trailing whitespace stays in the buffer. */
  lemma ObjectsAreSubmitted(events: seq<Framed>, tail: string)
    requires ValidStream(events) && JsonSpace(tail)
    ensures Feed(INIT, Chars(Utf8(PrintStream(events) + tail))).0 == State(tail, 0, false, false)
    ensures SubmittedBytes(PrintStream(events) + tail) == ReceivedAll(Texts(events))
  {
    var text := PrintStream(events) + tail;
    TextIsCut(events, tail);
    EmptyReceived();
    BytesSimulateText(INIT, text);
    SpaceReceived(tail);
    CutsReceived(events);
  }

  lemma TextIsCut(events: seq<Framed>, tail: string)
    requires ValidStream(events) && JsonSpace(tail)
    ensures Feed(INIT, PrintStream(events) + tail) == (State(tail, 0, false, false), Cuts(events))
  {
    StreamCuts(events);
    assert Feed(INIT, PrintStream(events)) == (INIT, Cuts(events));
    TailStays(tail);
    FeedConcat(INIT, PrintStream(events), tail);
    EmptyUnit(Cuts(events));
  }

  /** The event reaches the JSON parser as its own text. */
  predicate Arrives(e: Framed) { Nesting(e.event) <= MAX_NESTING && Ascii(Print(e.event)) }

  /** The `i`-th cut of the text is not submitted as `expected`. */
  ghost predicate WrongAt(text: string, i: nat, expected: string) {
    i < |Feed(INIT, text).1| && Trim(Received(Feed(INIT, text).1[i])) != expected
  }

  lemma WrongStays(text: string, more: string, i: nat, expected: string)
    requires WrongAt(text, i, expected)
    ensures WrongAt(text + more, i, expected)
  {
    FeedConcat(INIT, text, more);
  }

  lemma WrongNext(a: string, cuts: seq<string>, before: string, text: string, expected: string)
    requires CutsInto(a, cuts) && JsonSpace(before) && text != "" && text[0] == '{' && text[|text| - 1] == '}'
    requires Feed(INIT, before + text) == (INIT, [before + text]) && Received(text) != expected
    ensures WrongAt(a + (before + text), |cuts|, expected)
  {
    assert Feed(INIT, a) == (INIT, cuts);
    FeedCut(a, cuts, before + text);
    CutReceived(before, text);
  }

  lemma WrongCut(a: string, cuts: seq<string>, e: Framed)
    requires CutsInto(a, cuts) && WellFormedEvent(e) && !Arrives(e)
    ensures WrongAt(a + (e.before + Print(e.event)), |cuts|, Print(e.event))
  {
    var text, rest := FirstCut(e);
    EmptyUnit(text);
    FirstSubmittedIff(e, text, rest);
    WrongNext(a, cuts, e.before, text, Print(e.event));
    WrongStays(a + (e.before + text), rest, |cuts|, Print(e.event));
    AppendInside(a, e.before, text, rest);
  }

  lemma AppendInside(a: string, before: string, text: string, rest: string)
    ensures a + (before + text) + rest == a + (before + (text + rest))
  {
  }

  lemma {:induction false} FirstWrong(events: seq<Framed>, i: nat)
    requires WellFormedStream(events) && i < |events| && !Arrives(events[i])
    requires forall k :: 0 <= k < i ==> Arrives(events[k])
    ensures WrongAt(PrintStream(events), i, Print(events[i].event))
    decreases |events|
  {
    var front, e := events[..|events| - 1], events[|events| - 1];
    if i == |events| - 1 {
      StreamCuts(front);
      WrongCut(PrintStream(front), Cuts(front), e);
    } else {
      FirstWrong(front, i);
      WrongStays(PrintStream(front), e.before + Print(e.event), i, Print(events[i].event));
    }
  }

  lemma {:induction false} LeastFailure(events: seq<Framed>, k: nat) returns (i: nat)
    requires k < |events| && !Arrives(events[k])
    ensures i < |events| && !Arrives(events[i]) && forall j :: 0 <= j < i ==> Arrives(events[j])
    decreases k
  {
    if j :| 0 <= j < k && !Arrives(events[j]) { i := LeastFailure(events, j); } else { i := k; }
  }

  lemma AllArrive(events: seq<Framed>)
    requires forall i :: 0 <= i < |events| ==> Arrives(events[i])
    ensures ReceivedAll(Texts(events)) == Texts(events)
  {
    forall i | 0 <= i < |events| ensures Received(Texts(events)[i]) == Texts(events)[i] {
      ReceivedIff(Texts(events)[i]);
    }
  }

  /** A stream of well-formed JSON objects sent as UTF-8 is submitted as exactly those objects, in order, if and only if
      each of them nests at most 2^32 objects deep and is written in ASCII. */
  lemma StreamIsSubmittedIff(events: seq<Framed>, tail: string)
    requires WellFormedStream(events) && JsonSpace(tail)
    ensures SubmittedBytes(PrintStream(events) + tail) == Texts(events)
       <==> forall i :: 0 <= i < |events| ==> Arrives(events[i])
  {
    if k :| 0 <= k < |events| && !Arrives(events[k]) {
      var i := LeastFailure(events, k);
      FirstWrong(events, i);
      WrongStays(PrintStream(events), tail, i, Print(events[i].event));
      WrongIsSubmitted(PrintStream(events) + tail, i, Texts(events));
    } else {
      ObjectsAreSubmitted(events, tail);
      AllArrive(events);
    }
  }

  lemma WrongIsSubmitted(text: string, i: nat, expected: seq<string>)
    requires i < |expected| && WrongAt(text, i, expected[i])
    ensures SubmittedBytes(text) != expected
  {
    SubmittedCuts(text);
    assert SubmittedBytes(text)[i] == Trim(Received(Feed(INIT, text).1[i]));
  }

  /** A well-formed object sent as UTF-8 is submitted as itself exactly when its objects nest at most 2^32 deep and its
      text is ASCII; within the nesting bound it is submitted as the text its bytes are taken for. */
  lemma ObjectIsSubmittedIff(v: Value)
    requires v.Object? && WellFormed(v)
    ensures SubmittedBytes(Print(v)) == [Print(v)] <==> Nesting(v) <= MAX_NESTING && Ascii(Print(v))
    ensures Nesting(v) <= MAX_NESTING ==> SubmittedBytes(Print(v)) == [Received(Print(v))]
  {
    SingleIsSubmittedIff(Framed("", v));
  }

  lemma SingleIsSubmittedIff(e: Framed)
    requires e.before == "" && WellFormedEvent(e)
    ensures SubmittedBytes(Print(e.event)) == [Print(e.event)] <==> Arrives(e)
    ensures Nesting(e.event) <= MAX_NESTING ==> SubmittedBytes(Print(e.event)) == [Received(Print(e.event))]
  {
    StreamIsSubmittedIff([e], "");
    SingleEvent(e);
    assert Arrives(e) <==> forall i :: 0 <= i < |[e]| ==> Arrives([e][i]);
    if Nesting(e.event) <= MAX_NESTING { ObjectsAreSubmitted([e], ""); }
  }

  lemma SingleEvent(e: Framed)
    requires e.before == ""
    ensures PrintStream([e]) + "" == Print(e.event) && Texts([e]) == [Print(e.event)]
    ensures ReceivedAll(Texts([e])) == [Received(Print(e.event))]
  {
    assert [e][..0] == [] && PrintStream([]) == "";
    EmptyUnit(Print(e.event));
  }

  // ---------- Instances ----------

  const KEY := [Plain('a')]

  /** `k` objects around an empty one. */
  function Deep(k: nat): Value {
    if k == 0 then Object("", []) else Object("", [Member("", KEY, "", "", Deep(k - 1), "")])
  }

  lemma {:induction false} DeepNests(k: nat)
    ensures WellFormed(Deep(k)) && Nesting(Deep(k)) == k + 1
  {
    if k > 0 {
      DeepNests(k - 1);
      var m := Member("", KEY, "", "", Deep(k - 1), "");
      assert [m][1..] == [];
    }
  }

  /** There are objects that nest too deep. */
  lemma TooDeepIsNotSubmitted()
    ensures Deep(MAX_NESTING).Object? && WellFormed(Deep(MAX_NESTING))
    ensures SubmittedBytes(Print(Deep(MAX_NESTING))) != [Print(Deep(MAX_NESTING))]
  {
    DeepNests(MAX_NESTING);
    ObjectIsSubmittedIff(Deep(MAX_NESTING));
  }

  /** An object with the character under the key `a`. */
  function Accented(c: char): Value { Object("", [Member("", KEY, "", "", Str([Plain(c)]), "")]) }

  lemma AccentedPrints(c: char)
    ensures Print(Accented(c)) == "{\"a\":\"" + [c] + "\"}"
  {
    var m := Member("", KEY, "", "", Str([Plain(c)]), "");
    assert PrintChars([Plain(c)]) == [c] + "" && PrintString([Plain(c)]) == "\"" + ([c] + "\"");
    assert PrintChars(KEY) == "a" + "" && PrintString(KEY) == "\"a\"";
    assert MemberHead(m) == "\"a\":";
    assert PrintMember(m) == "\"a\":" + ("\"" + ([c] + "\""));
    assert PrintMembers([m]) == PrintMember(m) + ("" + "");
    assert Body(Accented(c)) == PrintMembers([m]);
  }

  lemma ReceivedAround(head: string, c: char, end: string)
    requires Ascii(head) && Ascii(end)
    ensures Received(head + [c] + end) == head + Chars(Utf8Char(c)) + end
  {
    ReceivedConcat(head + [c], end);
    ReceivedSnoc(head, c);
    ReceivedIff(head);
    ReceivedIff(end);
  }

  lemma AccentedShape(c: char)
    requires ValidItem(Plain(c))
    ensures WellFormed(Accented(c)) && Nesting(Accented(c)) == 1
  {
    var m := Member("", KEY, "", "", Str([Plain(c)]), "");
    assert NestingMembers([m][1..]) == 0 && Nesting(m.value) == 0;
    assert NestingMembers([m]) == 0;
    assert WellFormedMembers([m][1..]) && WellFormed(m.value);
  }

  /** It is submitted with the character's bytes in its place. */
  lemma AccentedIsReceived(c: char)
    requires ValidItem(Plain(c))
    ensures WellFormed(Accented(c)) && Nesting(Accented(c)) == 1
    ensures SubmittedBytes("{\"a\":\"" + [c] + "\"}") == ["{\"a\":\"" + Chars(Utf8Char(c)) + "\"}"]
  {
    AccentedPrints(c);
    AccentedShape(c);
    ObjectIsSubmittedIff(Accented(c));
    ReceivedAround("{\"a\":\"", c, "\"}");
  }

  /** So `{"a":"é"}` is submitted as `{"a":"Ã©"}`. */
  lemma AccentIsMangled()
    ensures SubmittedBytes("{\"a\":\"" + ['\U{E9}'] + "\"}") == ["{\"a\":\"" + "\U{C3}\U{A9}" + "\"}"]
  {
    AccentedIsReceived('\U{E9}');
    assert Chars(Utf8Char('\U{E9}')) == "\U{C3}\U{A9}";
  }
}
