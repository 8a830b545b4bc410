/** The standard-library text operations the Rust code relies on: decimal formatting and parsing,
    `split`, `trim`, and the byte-lexicographic order used by `sort` and by sled's key order.
    Text is a `string`; comparing characters by code point agrees with comparing their UTF-8 bytes. */
module Text {
  import opened Outcomes

  lemma Assoc<T>(a: seq<T>, b: seq<T>, c: seq<T>)
    ensures (a + b) + c == a + (b + c)
  {
  }

  lemma EmptyUnit<T>(a: seq<T>)
    ensures a + [] == a && [] + a == a
  {
  }

  // ---------- Decimal numbers ----------

  predicate IsDigit(c: char) { '0' <= c <= '9' }

  predicate AllDigits(s: string) { forall i :: 0 <= i < |s| ==> IsDigit(s[i]) }

  function DigitChar(d: nat): (c: char)
    requires d < 10
    ensures IsDigit(c) && DigitValue(c) == d
  {
    (d + '0' as int) as char
  }

  function DigitValue(c: char): (d: nat)
    requires IsDigit(c)
    ensures d < 10
  {
    c as int - '0' as int
  }

  /** `format!("{}", n)` for an unsigned integer. */
  function Digits(n: nat): (s: string)
    ensures |s| > 0 && AllDigits(s)
  {
    if n < 10 then [DigitChar(n)] else Digits(n / 10) + [DigitChar(n % 10)]
  }

  /** The number a run of decimal digits denotes. */
  function DigitsValue(s: string): nat
    requires AllDigits(s)
  {
    if s == [] then 0 else DigitsValue(s[..|s| - 1]) * 10 + DigitValue(s[|s| - 1])
  }

  lemma {:induction false} DigitsValueInverse(n: nat)
    ensures DigitsValue(Digits(n)) == n
  {
    if n >= 10 {
      DigitsValueInverse(n / 10);
      assert Digits(n)[..|Digits(n)| - 1] == Digits(n / 10);
    } else {
      assert Digits(n)[..0] == [];
    }
  }

  function Pow10(k: nat): (p: nat)
    ensures p > 0
  {
    if k == 0 then 1 else 10 * Pow10(k - 1)
  }

  lemma {:induction false} DigitsLength(n: nat, k: nat)
    requires 1 <= k && n < Pow10(k)
    ensures |Digits(n)| <= k
  {
    if n >= 10 { DigitsLength(n / 10, k - 1); }
  }

  /** `str::parse` into an unsigned type whose values are below `bound`: one optional leading `+`,
      then at least one ASCII digit and nothing else, and no overflow. */
  function ParseUnsigned(s: string, bound: nat): Option<nat> {
    var body := if |s| > 1 && s[0] == '+' then s[1..] else s;
    if body == [] || !AllDigits(body) then None
    else if DigitsValue(body) < bound then Some(DigitsValue(body))
    else None
  }

  lemma ParseDigits(n: nat, bound: nat)
    ensures ParseUnsigned(Digits(n), bound) == if n < bound then Some(n) else None
  {
    DigitsValueInverse(n);
    assert IsDigit(Digits(n)[0]);
  }

  function Zeros(k: nat): (z: string)
    ensures |z| == k && forall i :: 0 <= i < k ==> z[i] == '0'
  {
    seq(k, i => '0')
  }

  /** `s` is the number in decimal, with any zeros and perhaps a plus sign in front. */
  ghost predicate Numeral(s: string, n: nat) {
    exists k: nat :: s == Zeros(k) + Digits(n) || s == "+" + (Zeros(k) + Digits(n))
  }

  lemma {:induction false} PaddedValue(k: nat, n: nat)
    ensures AllDigits(Zeros(k) + Digits(n)) && DigitsValue(Zeros(k) + Digits(n)) == n
    decreases n, k
  {
    var s := Zeros(k) + Digits(n);
    if n >= 10 {
      PaddedValue(k, n / 10);
      assert s[..|s| - 1] == Zeros(k) + Digits(n / 10);
    } else if k > 0 {
      PaddedValue(k - 1, 0);
      assert s[..|s| - 1] == Zeros(k - 1) + Digits(0);
    } else {
      assert s[..|s| - 1] == [];
    }
  }

  lemma PaddedSnoc(k: nat, v: nat, c: char)
    requires IsDigit(c)
    ensures Zeros(k) + Digits(v) + [c] ==
      if v == 0 then Zeros(k + 1) + Digits(DigitValue(c)) else Zeros(k) + Digits(v * 10 + DigitValue(c))
  {
    if v == 0 {
      assert Zeros(k) + Digits(0) == Zeros(k + 1);
      assert Digits(DigitValue(c)) == [c];
    } else {
      assert Digits(v * 10 + DigitValue(c)) == Digits(v) + [c];
      Assoc(Zeros(k), Digits(v), [c]);
    }
  }

  lemma {:induction false} DigitsArePadded(s: string) returns (k: nat)
    requires s != [] && AllDigits(s)
    ensures s == Zeros(k) + Digits(DigitsValue(s))
  {
    var front, c := s[..|s| - 1], s[|s| - 1];
    assert s == front + [c];
    if front == [] {
      k := 0;
      assert DigitsValue(front) == 0;
      assert DigitsValue(s) == DigitValue(c);
      assert Zeros(0) + Digits(DigitValue(c)) == [c];
    } else {
      k := DigitsArePadded(front);
      PaddedSnoc(k, DigitsValue(front), c);
      if DigitsValue(front) == 0 { k := k + 1; }
    }
  }

  lemma DigitsAreNumeral(s: string, n: nat)
    ensures (s != [] && AllDigits(s) && DigitsValue(s) == n) <==> exists k: nat :: s == Zeros(k) + Digits(n)
  {
    if s != [] && AllDigits(s) { var k := DigitsArePadded(s); }
    if k: nat :| s == Zeros(k) + Digits(n) { PaddedValue(k, n); }
  }

  /** A text is read as a number exactly when it spells that number in decimal and the number is below the bound. */
  lemma ParseUnsignedIff(s: string, bound: nat, n: nat)
    ensures ParseUnsigned(s, bound) == Some(n) <==> n < bound && Numeral(s, n)
  {
    DigitsAreNumeral(s, n);
    if s != [] { DigitsAreNumeral(s[1..], n); }
    if k: nat :| s == Zeros(k) + Digits(n) { assert s[0] == if k > 0 then '0' else Digits(n)[0]; }
    if k: nat :| s == "+" + (Zeros(k) + Digits(n)) {
      assert s[0] == '+' && s[1..] == Zeros(k) + Digits(n);
    }
    if |s| > 1 && s[0] == '+' { assert s == "+" + s[1..]; }
  }

  const U16: nat := 0x1_0000
  const U32: nat := 0x1_0000_0000
  const U64: nat := 0x1_0000_0000_0000_0000

  // ---------- Lexicographic order ----------

  predicate LexLess(a: string, b: string) {
    b != [] && (a == [] || a[0] < b[0] || (a[0] == b[0] && LexLess(a[1..], b[1..])))
  }

  lemma {:induction false} LexIrreflexive(a: string)
    ensures !LexLess(a, a)
  {
    if a != [] { LexIrreflexive(a[1..]); }
  }

  lemma {:induction false} LexTransitive(a: string, b: string, c: string)
    requires LexLess(a, b) && LexLess(b, c)
    ensures LexLess(a, c)
  {
    if a != [] && a[0] == b[0] && b[0] == c[0] {
      LexTransitive(a[1..], b[1..], c[1..]);
    }
  }

  lemma {:induction false} LexTotal(a: string, b: string)
    ensures a == b || LexLess(a, b) || LexLess(b, a)
  {
    if a != [] && b != [] && a[0] == b[0] {
      LexTotal(a[1..], b[1..]);
      assert a == [a[0]] + a[1..] && b == [b[0]] + b[1..];
    }
  }

  lemma {:induction false} LexCommonPrefix(p: string, a: string, b: string)
    ensures LexLess(p + a, p + b) <==> LexLess(a, b)
  {
    if p == [] {
      assert p + a == a && p + b == b;
    } else {
      assert (p + a)[1..] == p[1..] + a && (p + b)[1..] == p[1..] + b;
      LexCommonPrefix(p[1..], a, b);
    }
  }

  // ---------- Sorted listings of a set of keys ----------

  ghost predicate StrictlySorted(s: seq<string>) {
    forall i, j :: 0 <= i < j < |s| ==> LexLess(s[i], s[j])
  }

  ghost predicate IsLeast(m: string, keys: set<string>) {
    m in keys && forall k :: k in keys && k != m ==> LexLess(m, k)
  }

  lemma {:induction false} LeastExists(keys: set<string>)
    requires keys != {}
    ensures exists m :: IsLeast(m, keys)
  {
    var k :| k in keys;
    if keys == {k} {
      assert IsLeast(k, keys);
    } else {
      var rest := keys - {k};
      LeastExists(rest);
      var m :| IsLeast(m, rest);
      LexTotal(k, m);
      if LexLess(k, m) {
        forall x | x in keys && x != k ensures LexLess(k, x) {
          if x != m { LexTransitive(k, m, x); }
        }
        assert IsLeast(k, keys);
      } else {
        assert IsLeast(m, keys);
      }
    }
  }

  /** The keys in ascending order: what `keys.sort()` and sled's iterator produce. */
  ghost function Sorted(keys: set<string>): (s: seq<string>)
    ensures StrictlySorted(s)
    ensures forall k :: k in s <==> k in keys
    ensures |s| == |keys|
    decreases |keys|
  {
    if keys == {} then [] else
      LeastExists(keys);
      var m :| IsLeast(m, keys);
      var rest := Sorted(keys - {m});
      assert forall i :: 0 <= i < |rest| ==> rest[i] in keys - {m};
      [m] + rest
  }

  lemma SortedTail(s: seq<string>, keys: set<string>)
    requires s != [] && StrictlySorted(s)
    requires forall k :: k in s <==> k in keys
    ensures StrictlySorted(s[1..]) && forall k :: k in s[1..] <==> k in keys - {s[0]}
  {
    forall k ensures k in s[1..] <==> k in keys - {s[0]} {
      if k in s[1..] { LexIrreflexive(k); assert k in s; }
      if k in keys - {s[0]} {
        assert k in s;
        var q :| 0 <= q < |s| && s[q] == k;
        assert s[1..][q - 1] == k;
      }
    }
  }

  lemma SameHead(s: seq<string>, t: seq<string>)
    requires s != [] && t != [] && StrictlySorted(s) && StrictlySorted(t)
    requires s[0] in t && t[0] in s
    ensures s[0] == t[0]
  {
    var i :| 0 <= i < |s| && s[i] == t[0];
    var j :| 0 <= j < |t| && t[j] == s[0];
    if i > 0 && j > 0 {
      LexTransitive(s[0], t[0], s[0]);
      LexIrreflexive(s[0]);
    }
  }

  lemma EmptyListing(s: seq<string>, keys: set<string>)
    requires forall k :: k in s <==> k in keys
    ensures s == [] <==> keys == {}
  {
    if s != [] { assert s[0] in keys; }
  }

  lemma {:induction false} SameListing(s: seq<string>, t: seq<string>, keys: set<string>)
    requires StrictlySorted(s) && StrictlySorted(t)
    requires (forall k :: k in s <==> k in keys) && (forall k :: k in t <==> k in keys)
    ensures s == t
    decreases |s|
  {
    if s == [] || t == [] {
      EmptyListing(s, keys);
      EmptyListing(t, keys);
    } else {
      assert s[0] in s && s[0] in t;
      assert t[0] in t && t[0] in s;
      SameHead(s, t);
      SortedTail(s, keys);
      SortedTail(t, keys);
      SameListing(s[1..], t[1..], keys - {s[0]});
    }
  }

  /** Only one strictly ascending sequence lists a given set. */
  lemma SortedUnique(s: seq<string>, keys: set<string>)
    requires StrictlySorted(s)
    requires forall k :: k in s <==> k in keys
    ensures s == Sorted(keys)
  {
    SameListing(s, Sorted(keys), keys);
  }

  method SortKeys(keys: set<string>) returns (s: seq<string>)
    ensures s == Sorted(keys)
  {
    s := [];
    var rest := keys;
    while rest != {}
      invariant StrictlySorted(s)
      invariant forall k :: k in s <==> k in keys - rest
      invariant rest <= keys
      invariant forall a, b :: a in s && b in rest ==> LexLess(a, b)
      decreases |rest|
    {
      var m := PickLeast(rest);
      s := s + [m];
      rest := rest - {m};
    }
    SortedUnique(s, keys);
  }

  method PickLeast(keys: set<string>) returns (m: string)
    requires keys != {}
    ensures IsLeast(m, keys)
  {
    m :| m in keys;
    var rest := keys - {m};
    while rest != {}
      invariant m in keys && rest <= keys
      invariant forall k :: k in keys - rest && k != m ==> LexLess(m, k)
      decreases |rest|
    {
      var k :| k in rest;
      LexTotal(k, m);
      if LexLess(k, m) {
        forall x | x in keys - rest && x != m ensures LexLess(k, x) { LexTransitive(k, m, x); }
        m := k;
      }
      rest := rest - {k};
    }
  }

  // ---------- Letter case ----------

  /** `to_uppercase`, for comparing with ASCII words: besides `a`-`z` only dotless i and long s have an ASCII
      uppercase form; the few characters that expand to several letters spell no part of any word compared with
      and are left alone. */
  function UpperChar(c: char): char {
    if 'a' <= c <= 'z' then (c as int - 32) as char
    else if c == '\U{0131}' then 'I'
    else if c == '\U{017F}' then 'S'
    else c
  }

  function Upper(s: string): (u: string)
    ensures |u| == |s|
    ensures forall i :: 0 <= i < |s| ==> u[i] == UpperChar(s[i])
  {
    seq(|s|, i requires 0 <= i < |s| => UpperChar(s[i]))
  }

  /** Letters go to the capital at the same place of the alphabet, and nothing else but those two changes. */
  lemma UpperCharIs(c: char)
    ensures 'a' <= c <= 'z' ==>
      'A' <= UpperChar(c) <= 'Z' && UpperChar(c) as int - 'A' as int == c as int - 'a' as int
    ensures UpperChar('\U{0131}') == 'I' && UpperChar('\U{017F}') == 'S'
    ensures !('a' <= c <= 'z') && c != '\U{0131}' && c != '\U{017F}' ==> UpperChar(c) == c
  {
  }

  // ---------- Splitting ----------

  /** The first position of `c`, or the length when it does not occur. */
  function IndexOf(s: string, c: char): (i: nat)
    ensures i <= |s|
    ensures forall j :: 0 <= j < i ==> s[j] != c
    ensures i < |s| ==> s[i] == c
    ensures i < |s| <==> c in s
  {
    if s == [] then 0 else if s[0] == c then 0 else 1 + IndexOf(s[1..], c)
  }

  lemma IndexOfIs(s: string, c: char, i: nat)
    requires i < |s| && s[i] == c && forall j :: 0 <= j < i ==> s[j] != c
    ensures IndexOf(s, c) == i
  {
  }

  /** `s.split(c)`. */
  function Split(s: string, c: char): (parts: seq<string>)
    ensures |parts| > 0
    decreases |s|
  {
    var i := IndexOf(s, c);
    if i == |s| then [s] else [s[..i]] + Split(s[i + 1..], c)
  }

  /** The parts with `c` between each two. */
  function Join(parts: seq<string>, c: char): string
    requires parts != []
  {
    if |parts| == 1 then parts[0] else parts[0] + [c] + Join(parts[1..], c)
  }

  lemma SplitStep(a: string, c: char, rest: string)
    requires c !in a
    ensures Split(a, c) == [a]
    ensures Split(a + [c] + rest, c) == [a] + Split(rest, c)
  {
    var s := a + [c] + rest;
    IndexOfIs(s, c, |a|);
    assert s[..|a|] == a && s[|a| + 1..] == rest;
  }

  lemma JoinStep(a: string, c: char, rest: seq<string>)
    requires rest != []
    ensures Join([a], c) == a
    ensures Join([a] + rest, c) == a + [c] + Join(rest, c)
  {
    assert ([a] + rest)[1..] == rest;
  }

  /** No part holds the separator. */
  ghost predicate Free(parts: seq<string>, c: char) {
    forall i :: 0 <= i < |parts| ==> c !in parts[i]
  }

  lemma {:induction false} SplitJoined(parts: seq<string>, c: char)
    requires parts != [] && Free(parts, c)
    ensures Split(Join(parts, c), c) == parts
  {
    var a, rest := parts[0], parts[1..];
    assert parts == [a] + rest;
    if rest == [] {
      SplitStep(a, c, []);
      assert parts == [a];
    } else {
      SplitJoined(rest, c);
      JoinStep(a, c, rest);
      SplitStep(a, c, Join(rest, c));
    }
  }

  lemma {:induction false} JoinSplit(s: string, c: char)
    ensures Join(Split(s, c), c) == s && Free(Split(s, c), c)
    decreases |s|
  {
    var i := IndexOf(s, c);
    if i < |s| {
      var a, rest := s[..i], s[i + 1..];
      JoinSplit(rest, c);
      assert s == a + [c] + rest;
      SplitStep(a, c, rest);
      JoinStep(a, c, Split(rest, c));
    }
  }

  /** The parts of a text are the only ones that hold no separator and give the text back when joined. */
  lemma SplitIff(s: string, c: char, parts: seq<string>)
    requires parts != []
    ensures Split(s, c) == parts <==> Join(parts, c) == s && Free(parts, c)
  {
    JoinSplit(s, c);
    if Join(parts, c) == s && Free(parts, c) { SplitJoined(parts, c); }
  }

  /** `s.splitn(2, c)`: both halves when `c` occurs, one part otherwise. */
  function SplitOnce(s: string, c: char): Option<(string, string)> {
    var i := IndexOf(s, c);
    if i == |s| then None else Some((s[..i], s[i + 1..]))
  }

  lemma SplitOnceJoin(a: string, c: char, b: string)
    requires c !in a
    ensures SplitOnce(a + [c] + b, c) == Some((a, b))
  {
    var s := a + [c] + b;
    assert s[|a|] == c;
    assert forall j :: 0 <= j < |a| ==> s[j] == a[j];
    assert s[..|a|] == a && s[|a| + 1..] == b;
  }

  // ---------- Trimming ----------

  /** `char::is_whitespace`, the Unicode White_Space property. */
  predicate IsWhitespace(c: char) {
    var n := c as int;
    9 <= n <= 13 || n == 0x20 || n == 0x85 || n == 0xA0 || n == 0x1680 || 0x2000 <= n <= 0x200A
    || n == 0x2028 || n == 0x2029 || n == 0x202F || n == 0x205F || n == 0x3000
  }

  /** Written out: the six of ASCII, and the nineteen of the rest of Unicode. */
  lemma WhitespaceIs(c: char)
    ensures c as int < 0x80 ==> (IsWhitespace(c) <==> c in {' ', '\t', '\n', '\r', '\U{000B}', '\U{000C}'})
    ensures c as int >= 0x80 ==>
      (IsWhitespace(c) <==> c in {
        '\U{0085}', '\U{00A0}', '\U{1680}', '\U{2000}', '\U{2001}', '\U{2002}', '\U{2003}', '\U{2004}', '\U{2005}',
        '\U{2006}', '\U{2007}', '\U{2008}', '\U{2009}', '\U{200A}', '\U{2028}', '\U{2029}', '\U{202F}', '\U{205F}',
        '\U{3000}'})
  {
  }

  predicate AllWhitespace(s: string) { forall i :: 0 <= i < |s| ==> IsWhitespace(s[i]) }

  /** No whitespace at either end. */
  predicate Trimmed(s: string) {
    s == [] || (!IsWhitespace(s[0]) && !IsWhitespace(s[|s| - 1]))
  }

  function TrimStart(s: string): (t: string)
    ensures |t| <= |s|
  {
    if s != [] && IsWhitespace(s[0]) then TrimStart(s[1..]) else s
  }

  function TrimEnd(s: string): (t: string)
    ensures |t| <= |s|
  {
    if s != [] && IsWhitespace(s[|s| - 1]) then TrimEnd(s[..|s| - 1]) else s
  }

  function Trim(s: string): string { TrimEnd(TrimStart(s)) }

  lemma {:induction false} TrimStartSkips(w: string, s: string)
    requires AllWhitespace(w)
    ensures TrimStart(w + s) == TrimStart(s)
  {
    if w == [] {
      assert w + s == s;
    } else {
      assert (w + s)[1..] == w[1..] + s;
      TrimStartSkips(w[1..], s);
    }
  }

  lemma {:induction false} TrimEndSkips(s: string, w: string)
    requires AllWhitespace(w)
    ensures TrimEnd(s + w) == TrimEnd(s)
  {
    if w == [] {
      assert s + w == s;
    } else {
      assert (s + w)[..|s + w| - 1] == s + w[..|w| - 1];
      TrimEndSkips(s, w[..|w| - 1]);
    }
  }

  /** Trimming removes exactly the surrounding whitespace. */
  lemma TrimPadded(w1: string, s: string, w2: string)
    requires AllWhitespace(w1) && AllWhitespace(w2) && Trimmed(s)
    ensures Trim(w1 + s + w2) == s
  {
    assert w1 + s + w2 == w1 + (s + w2);
    TrimStartSkips(w1, s + w2);
    if s == [] {
      TrimStartSkips(w2, []);
      assert s + w2 == w2 + [];
    } else {
      assert (s + w2)[0] == s[0];
      TrimEndSkips(s, w2);
    }
  }

  lemma {:induction false} TrimStartSplits(s: string) returns (w: string)
    ensures AllWhitespace(w) && s == w + TrimStart(s)
    ensures TrimStart(s) == "" || !IsWhitespace(TrimStart(s)[0])
  {
    w := "";
    if s != "" && IsWhitespace(s[0]) {
      w := TrimStartSplits(s[1..]);
      w := [s[0]] + w;
      assert s == [s[0]] + s[1..];
    }
  }

  lemma {:induction false} TrimEndSplits(s: string) returns (w: string)
    ensures AllWhitespace(w) && s == TrimEnd(s) + w
    ensures TrimEnd(s) == "" || !IsWhitespace(TrimEnd(s)[|TrimEnd(s)| - 1])
  {
    w := "";
    if s != "" && IsWhitespace(s[|s| - 1]) {
      w := TrimEndSplits(s[..|s| - 1]);
      w := w + [s[|s| - 1]];
      assert s == s[..|s| - 1] + [s[|s| - 1]];
    }
  }

  lemma TrimSplits(s: string) returns (w1: string, w2: string)
    ensures AllWhitespace(w1) && AllWhitespace(w2) && s == w1 + Trim(s) + w2
    ensures Trimmed(Trim(s))
  {
    w1 := TrimStartSplits(s);
    w2 := TrimEndSplits(TrimStart(s));
    if Trim(s) != "" { assert Trim(s)[0] == TrimStart(s)[0]; }
  }

  /** The trimmed text is the one left when whitespace is taken off both ends and none is left there. */
  lemma TrimIff(s: string, t: string)
    ensures Trim(s) == t <==>
      Trimmed(t) && exists w1, w2 :: AllWhitespace(w1) && AllWhitespace(w2) && s == w1 + t + w2
  {
    var w1, w2 := TrimSplits(s);
    if Trimmed(t) && exists w1, w2 :: AllWhitespace(w1) && AllWhitespace(w2) && s == w1 + t + w2 {
      var v1, v2 :| AllWhitespace(v1) && AllWhitespace(v2) && s == v1 + t + v2;
      TrimPadded(v1, t, v2);
    }
  }

  lemma TrimIsTrimmed(s: string)
    requires Trimmed(s)
    ensures Trim(s) == s
  {
  }

  lemma TrimAllWhitespace(w: string)
    requires AllWhitespace(w)
    ensures Trim(w) == []
  {
    TrimPadded(w, [], []);
    assert w + [] + [] == w;
  }
}
