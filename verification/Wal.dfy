/** The write-ahead log (crates/vyomad/src/state/wal.rs): keys are `timestamp:vm-id`, the store iterates them in byte
    order, and `get_active_vm_ids` folds them into the VMs to recover. Time is an input. */
module Wal {
  import opened Outcomes
  import opened Text

  datatype WalEntry =
    | VmCreate(id: string, timestamp: nat)
    | VmStart(id: string, timestamp: nat)
    | VmStop(id: string, timestamp: nat)
    | VmDestroy(id: string, timestamp: nat)
    | VmCheckpoint(id: string, snapshotPath: string, timestamp: nat)

  /** A stored value, as far as the JSON decoder can tell. */
  datatype Stored = Readable(entry: WalEntry) | Unreadable

  type Log = map<string, Stored>

  /** `iterate_wal` replaces what it cannot read. */
  function Read(v: Stored): WalEntry {
    if v.Readable? then v.entry else VmCreate("parse_error", 0)
  }

  predicate Starts(e: WalEntry) { e.VmCreate? || e.VmStart? }

  // ---------- Keys ----------

  function Key(ts: nat, id: string): string { Digits(ts) + [':'] + id }

  /** Timestamp and VM id of a key; keys without a colon are skipped, unreadable timestamps count as 0. */
  function DecodeKey(key: string): Option<(nat, string)> {
    match SplitOnce(key, ':')
    case None => None
    case Some(parts) =>
      Some((match ParseUnsigned(parts.0, U64) case Some(ts) => ts case None => 0, parts.1))
  }

  /** Keys decode to exactly what was encoded, whatever characters the id contains. */
  lemma KeyDecodes(ts: nat, id: string)
    requires ts < U64
    ensures DecodeKey(Key(ts, id)) == Some((ts, id))
  {
    SplitOnceJoin(Digits(ts), ':', id);
    ParseDigits(ts, U64);
  }

  /** Any key: without a colon it is skipped; otherwise what follows the first colon is the VM id, and what precedes it
      the timestamp if it spells a 64-bit number, or zero. */
  lemma DecodesAnyKey(key: string, before: string, id: string, ts: nat)
    ensures ':' !in key ==> DecodeKey(key) == None
    ensures key == before + [':'] + id && ':' !in before && Numeral(before, ts) && ts < 0x1_0000_0000_0000_0000 ==>
      DecodeKey(key) == Some((ts, id))
    ensures key == before + [':'] + id && ':' !in before && (forall n: nat | n < U64 :: !Numeral(before, n)) ==>
      DecodeKey(key) == Some((0, id))
  {
    if key == before + [':'] + id && ':' !in before {
      SplitOnceJoin(before, ':', id);
      ParseUnsignedIff(before, U64, ts);
      if ParseUnsigned(before, U64).Some? { ParseUnsignedIff(before, U64, ParseUnsigned(before, U64).value); }
    }
  }

  lemma KeyInjective(ts1: nat, id1: string, ts2: nat, id2: string)
    requires ts1 < U64 && ts2 < U64 && Key(ts1, id1) == Key(ts2, id2)
    ensures ts1 == ts2 && id1 == id2
  {
    KeyDecodes(ts1, id1);
    KeyDecodes(ts2, id2);
  }

  // ---------- Scan order ----------

  lemma {:induction false} SameLengthOrder(m: nat, n: nat, x: string, y: string)
    requires m < n && |Digits(m)| == |Digits(n)|
    ensures LexLess(Digits(m) + x, Digits(n) + y)
    decreases n
  {
    if n < 10 {
      assert (Digits(m) + x)[0] < (Digits(n) + y)[0];
    } else {
      var a, b := [DigitChar(m % 10)], [DigitChar(n % 10)];
      assert Digits(m) + x == Digits(m / 10) + (a + x);
      assert Digits(n) + y == Digits(n / 10) + (b + y);
      if m / 10 < n / 10 {
        SameLengthOrder(m / 10, n / 10, a + x, b + y);
      } else {
        assert m / 10 == n / 10 && m % 10 < n % 10;
        assert (a + x)[0] < (b + y)[0];
        LexCommonPrefix(Digits(m / 10), a + x, b + y);
      }
    }
  }

  lemma {:induction false} LengthMonotone(m: nat, n: nat)
    requires m <= n
    ensures |Digits(m)| <= |Digits(n)|
    decreases n
  {
    if m >= 10 { LengthMonotone(m / 10, n / 10); }
  }

  /** The number without its last `k` digits. */
  function DropDigits(n: nat, k: nat): nat {
    if k == 0 then n else DropDigits(n / 10, k - 1)
  }

  lemma {:induction false} DigitsPrefix(n: nat, k: nat)
    requires k < |Digits(n)|
    ensures Digits(n)[..|Digits(n)| - k] == Digits(DropDigits(n, k))
    decreases k
  {
    var d := Digits(n);
    if k == 0 {
      assert d[..|d|] == d;
    } else {
      DigitsPrefix(n / 10, k - 1);
      assert d[..|d| - k] == Digits(n / 10)[..|Digits(n / 10)| - (k - 1)];
    }
  }

  lemma {:induction false} DropDigitsDivides(n: nat, k: nat)
    ensures DropDigits(n, k) == n / Pow10(k)
    decreases k
  {
    if k > 0 {
      DropDigitsDivides(n / 10, k - 1);
      DivideTwice(n, Pow10(k - 1));
    }
  }

  lemma DivideTwice(n: nat, p: nat)
    requires p > 0
    ensures n / 10 / p == n / (10 * p)
  {
    var a, s := n / 10, n % 10;
    var q, r := a / p, a % p;
    var product := p * q;
    assert a == product + r;
    assert n == 10 * product + (10 * r + s);
    assert 10 * product == (10 * p) * q;
    QuotientIs(n, 10 * p, q, 10 * r + s);
  }

  lemma QuotientIs(n: nat, m: nat, q: nat, r: nat)
    requires m > 0 && n == m * q + r && r < m
    ensures n / m == q
  {
    var k, s := n / m, n % m;
    assert n == m * k + s;
    assert m * q == m * k + m * (q - k);
    assert m * k == m * q + m * (k - q);
    if k < q { MulAtLeast(m, q - k); }
    if q < k { MulAtLeast(m, k - q); }
  }

  lemma {:induction false} MulAtLeast(m: nat, d: nat)
    requires d >= 1
    ensures m * d >= m
    decreases d
  {
    if d > 1 {
      MulAtLeast(m, d - 1);
      assert m * d == m * (d - 1) + m;
    }
  }

  lemma LexAsymmetric(a: string, b: string)
    requires LexLess(a, b)
    ensures !LexLess(b, a)
  {
    if LexLess(b, a) {
      LexTransitive(a, b, a);
      LexIrreflexive(a);
    }
  }

  /** An earlier record is scanned before a later one exactly when its timestamp is below the leading digits of the
      later timestamp, as many as it has itself. So with equal digit counts the scan is in time order, and across a
      change of digit count it need not be. */
  lemma KeyOrderIff(ts1: nat, id1: string, ts2: nat, id2: string)
    requires ts1 < ts2
    ensures |Digits(ts1)| <= |Digits(ts2)|
    ensures LexLess(Key(ts1, id1), Key(ts2, id2)) <==> ts1 < ts2 / Pow10(|Digits(ts2)| - |Digits(ts1)|)
  {
    LengthMonotone(ts1, ts2);
    KeyOrderByPrefix(ts1, id1, ts2, id2);
    DropDigitsDivides(ts2, |Digits(ts2)| - |Digits(ts1)|);
  }

  lemma KeyOrderByPrefix(ts1: nat, id1: string, ts2: nat, id2: string)
    requires ts1 < ts2 && |Digits(ts1)| <= |Digits(ts2)|
    ensures LexLess(Key(ts1, id1), Key(ts2, id2)) <==> ts1 < DropDigits(ts2, |Digits(ts2)| - |Digits(ts1)|)
  {
    var q, y := LaterKeySplits(ts1, ts2, id2);
    WholeKey(ts1, id1);
    ComparePrefixes(ts1, q, [':'] + id1, y);
  }

  /** The later key after as many leading digits as the earlier timestamp has. */
  lemma LaterKeySplits(ts1: nat, ts2: nat, id2: string) returns (q: nat, y: string)
    requires ts1 < ts2 && |Digits(ts1)| <= |Digits(ts2)|
    ensures q == DropDigits(ts2, |Digits(ts2)| - |Digits(ts1)|) && |Digits(q)| == |Digits(ts1)|
    ensures Key(ts2, id2) == Digits(q) + y && y != "" && (ts1 == q ==> IsDigit(y[0]))
  {
    var k := |Digits(ts2)| - |Digits(ts1)|;
    KeySplits(ts2, id2, k);
    q, y := DropDigits(ts2, k), KeyTail(ts2, id2, k);
  }

  lemma WholeKey(ts: nat, id: string)
    ensures Key(ts, id) == Digits(ts) + ([':'] + id)
  {
    Assoc(Digits(ts), [':'], id);
  }

  /** A key without the leading digits of its timestamp, all but `k` of them. */
  function KeyTail(ts: nat, id: string, k: nat): string
    requires k < |Digits(ts)|
  {
    Digits(ts)[|Digits(ts)| - k..] + ([':'] + id)
  }

  lemma KeySplits(ts: nat, id: string, k: nat)
    requires k < |Digits(ts)|
    ensures Key(ts, id) == Digits(DropDigits(ts, k)) + KeyTail(ts, id, k)
    ensures |Digits(DropDigits(ts, k))| == |Digits(ts)| - k
    ensures KeyTail(ts, id, k) != "" &&
      (if k == 0 then KeyTail(ts, id, k)[0] == ':' else IsDigit(KeyTail(ts, id, k)[0]))
  {
    DigitsPrefix(ts, k);
    var d := Digits(ts);
    assert d + [':'] + id == d[..|d| - k] + (d[|d| - k..] + ([':'] + id));
    assert k > 0 ==> KeyTail(ts, id, k)[0] == d[|d| - k];
  }

  lemma ComparePrefixes(ts1: nat, q: nat, x: string, y: string)
    requires |Digits(ts1)| == |Digits(q)| && x != "" && y != "" && x[0] == ':'
    requires ts1 == q ==> IsDigit(y[0])
    ensures LexLess(Digits(ts1) + x, Digits(q) + y) <==> ts1 < q
  {
    if ts1 < q {
      SameLengthOrder(ts1, q, x, y);
    } else if ts1 == q {
      LexCommonPrefix(Digits(q), x, y);
    } else {
      SameLengthOrder(q, ts1, y, x);
      LexAsymmetric(Digits(q) + y, Digits(ts1) + x);
    }
  }

  lemma EqualDigitsScanInTimeOrder(ts1: nat, id1: string, ts2: nat, id2: string)
    requires ts1 < ts2 && |Digits(ts1)| == |Digits(ts2)|
    ensures LexLess(Key(ts1, id1), Key(ts2, id2))
  {
    assert Pow10(0) == 1 && ts2 / 1 == ts2;
    KeyOrderIff(ts1, id1, ts2, id2);
  }

  // ---------- Appending ----------

  /** One append: the clock reading and the entry. */
  datatype Append = Append(now: nat, entry: WalEntry)

  function KeyOf(a: Append): string { Key(a.now, a.entry.id) }

  function Written(history: seq<Append>): Log {
    if history == [] then map[]
    else
      var a := history[|history| - 1];
      Written(history[..|history| - 1])[KeyOf(a) := Readable(a.entry)]
  }

  function Appended(log: Log, a: Append): Log { log[KeyOf(a) := Readable(a.entry)] }

  lemma WrittenSnoc(history: seq<Append>, a: Append)
    ensures Written(history + [a]) == Appended(Written(history), a)
  {
    assert (history + [a])[..|history|] == history;
  }

  ghost predicate ValidClock(history: seq<Append>) {
    forall i :: 0 <= i < |history| ==> history[i].now < U64
  }

  /** No two appends share both the clock reading and the VM. */
  ghost predicate DistinctTimes(history: seq<Append>) {
    forall i, j :: 0 <= i < j < |history| ==>
      (history[i].now, history[i].entry.id) != (history[j].now, history[j].entry.id)
  }

  ghost predicate Wrote(history: seq<Append>, key: string) {
    exists i :: 0 <= i < |history| && KeyOf(history[i]) == key
  }

  lemma SnocWrote(front: seq<Append>, a: Append, key: string)
    ensures Wrote(front + [a], key) <==> Wrote(front, key) || KeyOf(a) == key
  {
    var all := front + [a];
    assert all[|front|] == a;
    if i :| 0 <= i < |front| && KeyOf(front[i]) == key { assert all[i] == front[i]; }
    if i :| 0 <= i < |all| && KeyOf(all[i]) == key { assert i < |front| ==> all[i] == front[i]; }
  }

  lemma {:induction false} KeyWritten(history: seq<Append>, key: string)
    ensures key in Written(history) <==> Wrote(history, key)
  {
    if history != [] {
      var front, a := history[..|history| - 1], history[|history| - 1];
      KeyWritten(front, key);
      assert history == front + [a];
      SnocWrote(front, a, key);
    }
  }

  lemma AppendedSize(log: Log, a: Append)
    ensures |Appended(log, a)| == if KeyOf(a) in log then |log| else |log| + 1
  {
    var after := Appended(log, a);
    assert |after| == |after.Keys| && |log| == |log.Keys|;
    if KeyOf(a) in log {
      assert after.Keys == log.Keys;
    } else {
      assert after.Keys == log.Keys + {KeyOf(a)};
    }
  }

  lemma {:induction false} WrittenSize(history: seq<Append>)
    ensures |Written(history)| <= |history|
  {
    if history != [] {
      var front, a := history[..|history| - 1], history[|history| - 1];
      WrittenSize(front);
      AppendedSize(Written(front), a);
    }
  }

  ghost predicate DistinctKeys(history: seq<Append>) {
    forall i, j :: 0 <= i < j < |history| ==> KeyOf(history[i]) != KeyOf(history[j])
  }

  lemma TimesAndKeys(history: seq<Append>)
    requires ValidClock(history)
    ensures DistinctKeys(history) <==> DistinctTimes(history)
  {
    forall i, j | 0 <= i < j < |history| && KeyOf(history[i]) == KeyOf(history[j])
      ensures (history[i].now, history[i].entry.id) == (history[j].now, history[j].entry.id)
    {
      KeyInjective(history[i].now, history[i].entry.id, history[j].now, history[j].entry.id);
    }
  }

  lemma DistinctKeysSnoc(front: seq<Append>, a: Append)
    ensures DistinctKeys(front + [a]) <==> DistinctKeys(front) && !Wrote(front, KeyOf(a))
  {
    var all := front + [a];
    assert forall i :: 0 <= i < |front| ==> all[i] == front[i];
    assert all[|front|] == a;
  }

  lemma {:induction false} SizeTellsDistinct(history: seq<Append>)
    ensures |Written(history)| == |history| <==> DistinctKeys(history)
  {
    if history != [] {
      var front, a := history[..|history| - 1], history[|history| - 1];
      SizeTellsDistinct(front);
      SizeSnoc(front, a);
      assert history == front + [a];
    }
  }

  lemma SizeSnoc(front: seq<Append>, a: Append)
    requires |Written(front)| == |front| <==> DistinctKeys(front)
    ensures |Written(front + [a])| == |front| + 1 <==> DistinctKeys(front + [a])
  {
    WrittenSize(front);
    KeyWritten(front, KeyOf(a));
    WrittenSnoc(front, a);
    AppendedSize(Written(front), a);
    DistinctKeysSnoc(front, a);
  }

  lemma {:induction false} DistinctRecordsStay(history: seq<Append>, i: nat)
    requires DistinctKeys(history) && i < |history|
    ensures KeyOf(history[i]) in Written(history)
    ensures Written(history)[KeyOf(history[i])] == Readable(history[i].entry)
    decreases |history|
  {
    var n := |history| - 1;
    if i < n { DistinctRecordsStay(history[..n], i); }
  }

  /** The log holds one record per append exactly when no two appends of a VM happen at the same clock reading; then
      every record is stored under its key. */
  lemma NothingLostIff(history: seq<Append>)
    requires ValidClock(history)
    ensures |Written(history)| == |history| <==> DistinctTimes(history)
    ensures DistinctTimes(history) ==>
      forall i :: 0 <= i < |history| ==>
        KeyOf(history[i]) in Written(history) && Written(history)[KeyOf(history[i])] == Readable(history[i].entry)
  {
    SizeTellsDistinct(history);
    TimesAndKeys(history);
    if DistinctTimes(history) {
      forall i | 0 <= i < |history|
        ensures KeyOf(history[i]) in Written(history) &&
          Written(history)[KeyOf(history[i])] == Readable(history[i].entry)
      {
        DistinctRecordsStay(history, i);
      }
    }
  }

  // ---------- Active VMs ----------

  ghost predicate Concerns(key: string, id: string) {
    DecodeKey(key).Some? && DecodeKey(key).value.1 == id
  }

  /** The first record of a VM in scan order. */
  ghost predicate FirstRecord(log: Log, id: string, key: string) {
    key in log && Concerns(key, id) && forall k :: k in log && Concerns(k, id) && k != key ==> LexLess(key, k)
  }

  ghost predicate Active(log: Log, id: string) {
    exists key :: FirstRecord(log, id, key) && Starts(Read(log[key]))
  }

  /** The greatest key timestamp of a VM. */
  ghost predicate LatestTime(log: Log, id: string, ts: nat) {
    && (exists k :: k in log && Concerns(k, id) && DecodeKey(k).value.0 == ts)
    && (forall k :: k in log && Concerns(k, id) ==> DecodeKey(k).value.0 <= ts)
  }

  /** Each active VM once, with its greatest timestamp, and no other VM. */
  ghost predicate ListsActive(log: Log, r: seq<(string, nat)>) {
    && (forall i, j :: 0 <= i < j < |r| ==> r[i].0 != r[j].0)
    && (forall i :: 0 <= i < |r| ==> Active(log, r[i].0) && LatestTime(log, r[i].0, r[i].1))
    && (forall id :: Active(log, id) ==> exists i :: 0 <= i < |r| && r[i].0 == id)
  }

  type Latest = map<string, (WalEntry, nat)>

  ghost predicate Mentions(seen: seq<string>, id: string) {
    exists i :: 0 <= i < |seen| && Concerns(seen[i], id)
  }

  /** The value of the VM's first record among the keys. */
  ghost predicate FirstValue(log: Log, seen: seq<string>, id: string, e: WalEntry) {
    exists i :: 0 <= i < |seen| && Concerns(seen[i], id) && seen[i] in log && e == Read(log[seen[i]])
      && forall j :: 0 <= j < i ==> !Concerns(seen[j], id)
  }

  /** The greatest timestamp of the VM among the keys. */
  ghost predicate MaxTime(seen: seq<string>, id: string, ts: nat) {
    && (exists i :: 0 <= i < |seen| && Concerns(seen[i], id) && DecodeKey(seen[i]).value.0 == ts)
    && (forall i :: 0 <= i < |seen| && Concerns(seen[i], id) ==> DecodeKey(seen[i]).value.0 <= ts)
  }

  /** What the fold knows of a VM after a prefix of the scan. */
  ghost predicate Tracks(log: Log, seen: seq<string>, latest: Latest, id: string) {
    && (id in latest <==> Mentions(seen, id))
    && (id in latest ==> FirstValue(log, seen, id, latest[id].0) && MaxTime(seen, id, latest[id].1))
  }

  function FoldKey(log: Log, latest: Latest, key: string): Latest
    requires key in log
  {
    match DecodeKey(key)
    case None => latest
    case Some(d) =>
      if d.1 in latest then
        if d.0 > latest[d.1].1 then latest[d.1 := (latest[d.1].0, d.0)] else latest
      else latest[d.1 := (Read(log[key]), d.0)]
  }

  lemma SnocMentions(seen: seq<string>, key: string, id: string)
    ensures Mentions(seen + [key], id) <==> Mentions(seen, id) || Concerns(key, id)
  {
    var more := seen + [key];
    assert forall i :: 0 <= i < |seen| ==> more[i] == seen[i];
    assert more[|seen|] == key;
  }

  lemma SnocFirstValue(log: Log, seen: seq<string>, key: string, id: string, e: WalEntry)
    requires FirstValue(log, seen, id, e)
    ensures FirstValue(log, seen + [key], id, e)
  {
    var i :| 0 <= i < |seen| && Concerns(seen[i], id) && seen[i] in log && e == Read(log[seen[i]])
      && forall j :: 0 <= j < i ==> !Concerns(seen[j], id);
    var more := seen + [key];
    assert more[i] == seen[i] && forall j :: 0 <= j < i ==> more[j] == seen[j];
  }

  lemma NewFirstValue(log: Log, seen: seq<string>, key: string, id: string)
    requires !Mentions(seen, id) && Concerns(key, id) && key in log
    ensures FirstValue(log, seen + [key], id, Read(log[key])) && MaxTime(seen + [key], id, DecodeKey(key).value.0)
  {
    var more := seen + [key];
    assert more[|seen|] == key;
    assert forall j :: 0 <= j < |seen| ==> more[j] == seen[j] && !Concerns(seen[j], id);
  }

  lemma SnocMaxTime(seen: seq<string>, key: string, id: string, ts: nat)
    requires MaxTime(seen, id, ts)
    ensures MaxTime(
      seen + [key], id, if Concerns(key, id) && DecodeKey(key).value.0 > ts then DecodeKey(key).value.0 else ts)
  {
    var more := seen + [key];
    assert more[|seen|] == key;
    if !(Concerns(key, id) && DecodeKey(key).value.0 > ts) {
      var i :| 0 <= i < |seen| && Concerns(seen[i], id) && DecodeKey(seen[i]).value.0 == ts;
      assert more[i] == seen[i];
    }
    forall i | 0 <= i < |seen| && Concerns(more[i], id) ensures DecodeKey(more[i]).value.0 <= ts {
      assert more[i] == seen[i];
    }
  }

  /** What folding a key does to the entry of one VM. */
  lemma FoldKeyAt(log: Log, latest: Latest, key: string, id: string)
    requires key in log
    ensures var u := FoldKey(log, latest, key);
      if !Concerns(key, id) then (id in u <==> id in latest) && (id in u ==> u[id] == latest[id])
      else
        var ts := DecodeKey(key).value.0;
        && id in u
        && (id in latest ==> u[id] == (latest[id].0, if ts > latest[id].1 then ts else latest[id].1))
        && (id !in latest ==> u[id] == (Read(log[key]), ts))
  {
  }

  lemma FoldKeyTracks(log: Log, seen: seq<string>, latest: Latest, key: string, id: string)
    requires key in log && Tracks(log, seen, latest, id)
    ensures Tracks(log, seen + [key], FoldKey(log, latest, key), id)
  {
    FoldKeyAt(log, latest, key, id);
    SnocMentions(seen, key, id);
    if id in latest {
      SnocFirstValue(log, seen, key, id, latest[id].0);
      SnocMaxTime(seen, key, id, latest[id].1);
    } else if Concerns(key, id) {
      NewFirstValue(log, seen, key, id);
    }
  }

  ghost predicate TracksEvery(log: Log, seen: seq<string>, latest: Latest) {
    forall id :: Tracks(log, seen, latest, id)
  }

  lemma FoldKeyTracksEvery(log: Log, seen: seq<string>, latest: Latest, key: string)
    requires key in log && TracksEvery(log, seen, latest)
    ensures TracksEvery(log, seen + [key], FoldKey(log, latest, key))
  {
    var more, u := seen + [key], FoldKey(log, latest, key);
    forall id ensures Tracks(log, more, u, id) {
      FoldKeyTracks(log, seen, latest, key, id);
    }
  }

  lemma TracksAll(log: Log, latest: Latest, id: string)
    requires Tracks(log, Sorted(log.Keys), latest, id)
    ensures Active(log, id) <==> id in latest && Starts(latest[id].0)
    ensures id in latest ==> LatestTime(log, id, latest[id].1)
  {
    if id in latest {
      FirstValueIsFirstRecord(log, id, latest[id].0);
      MaxTimeIsLatest(log, id, latest[id].1);
    } else {
      var seen := Sorted(log.Keys);
      assert forall j :: 0 <= j < |seen| ==> !Concerns(seen[j], id);
      assert forall key :: key in log ==> key in seen;
    }
  }

  lemma FirstValueIsFirstRecord(log: Log, id: string, e: WalEntry)
    requires FirstValue(log, Sorted(log.Keys), id, e)
    ensures Active(log, id) <==> Starts(e)
  {
    var seen := Sorted(log.Keys);
    var i :| 0 <= i < |seen| && Concerns(seen[i], id) && seen[i] in log && e == Read(log[seen[i]])
      && forall j :: 0 <= j < i ==> !Concerns(seen[j], id);
    FirstInScan(log, id, i);
    forall key | FirstRecord(log, id, key) ensures key == seen[i] {
      if key != seen[i] { LexAsymmetric(key, seen[i]); }
    }
  }

  lemma MaxTimeIsLatest(log: Log, id: string, ts: nat)
    requires MaxTime(Sorted(log.Keys), id, ts)
    ensures LatestTime(log, id, ts)
  {
    var seen := Sorted(log.Keys);
    forall k | k in log && Concerns(k, id) ensures DecodeKey(k).value.0 <= ts {
      assert k in seen;
      var j :| 0 <= j < |seen| && seen[j] == k;
      assert Concerns(seen[j], id);
    }
    var m :| 0 <= m < |seen| && Concerns(seen[m], id) && DecodeKey(seen[m]).value.0 == ts;
    assert seen[m] in log.Keys;
  }

  lemma FirstInScan(log: Log, id: string, i: nat)
    requires i < |Sorted(log.Keys)| && Concerns(Sorted(log.Keys)[i], id)
    requires forall j :: 0 <= j < i ==> !Concerns(Sorted(log.Keys)[j], id)
    ensures FirstRecord(log, id, Sorted(log.Keys)[i])
  {
    var seen := Sorted(log.Keys);
    assert seen[i] in log.Keys;
    forall k | k in log && Concerns(k, id) && k != seen[i] ensures LexLess(seen[i], k) {
      assert k in seen;
      var j :| 0 <= j < |seen| && seen[j] == k;
      assert j > i;
    }
  }

  class WriteAheadLog {
    var tree: Log

    constructor ()
      ensures tree == map[]
    {
      tree := map[];
    }

    method AppendEntry(entry: WalEntry, now: nat)
      modifies this
      ensures tree == old(tree)[Key(now, entry.id) := Readable(entry)]
      ensures forall h :: old(tree) == Written(h) ==> tree == Written(h + [Append(now, entry)])
    {
      tree := tree[Key(now, entry.id) := Readable(entry)];
      forall h | old(tree) == Written(h) ensures tree == Written(h + [Append(now, entry)]) {
        assert (h + [Append(now, entry)])[..|h|] == h;
      }
    }

    /** The result vector comes out of a hash map, so its order is arbitrary. */
    method GetActiveVmIds() returns (r: seq<(string, nat)>)
      ensures ListsActive(tree, r)
    {
      var latest := FoldLog(tree);
      r := CollectActive(tree, latest);
    }
  }

  method FoldLog(log: Log) returns (latest: Latest)
    ensures TracksEvery(log, Sorted(log.Keys), latest)
  {
    var keys := SortKeys(log.Keys);
    SortedAreKeys(log);
    latest := FoldKeys(log, keys);
  }

  lemma SortedAreKeys(log: Log)
    ensures forall i :: 0 <= i < |Sorted(log.Keys)| ==> Sorted(log.Keys)[i] in log
  {
    forall i | 0 <= i < |Sorted(log.Keys)| ensures Sorted(log.Keys)[i] in log {
      assert Sorted(log.Keys)[i] in log.Keys;
    }
  }

  method FoldKeys(log: Log, keys: seq<string>) returns (latest: Latest)
    requires forall i :: 0 <= i < |keys| ==> keys[i] in log
    ensures TracksEvery(log, keys, latest)
  {
    latest := map[];
    var k := 0;
    TracksNone(log, keys);
    while k < |keys|
      invariant 0 <= k <= |keys|
      invariant TracksEvery(log, keys[..k], latest)
    {
      FoldStep(log, keys, k, latest);
      latest := FoldOne(log, latest, keys[k]);
      k := k + 1;
    }
    assert keys[..k] == keys;
  }

  lemma TracksNone(log: Log, keys: seq<string>)
    ensures TracksEvery(log, keys[..0], map[])
  {
  }

  lemma FoldStep(log: Log, keys: seq<string>, k: nat, latest: Latest)
    requires k < |keys| && keys[k] in log && TracksEvery(log, keys[..k], latest)
    ensures TracksEvery(log, keys[..k + 1], FoldKey(log, latest, keys[k]))
  {
    FoldKeyTracksEvery(log, keys[..k], latest, keys[k]);
    assert keys[..k + 1] == keys[..k] + [keys[k]];
  }

  method FoldOne(log: Log, before: Latest, key: string) returns (latest: Latest)
    requires key in log
    ensures latest == FoldKey(log, before, key)
  {
    latest := before;
    match DecodeKey(key) {
      case None =>
      case Some(d) =>
        if d.1 in latest {
          if d.0 > latest[d.1].1 {
            latest := latest[d.1 := (latest[d.1].0, d.0)];
          }
        } else {
          latest := latest[d.1 := (Read(log[key]), d.0)];
        }
    }
  }

  /** The start-like entries of the map outside `rest`, each once. */
  ghost predicate Collected(latest: Latest, rest: set<string>, r: seq<(string, nat)>) {
    && (forall i, j :: 0 <= i < j < |r| ==> r[i].0 != r[j].0)
    && (forall i :: 0 <= i < |r| ==>
         r[i].0 in latest && r[i].0 !in rest && Starts(latest[r[i].0].0) && r[i].1 == latest[r[i].0].1)
    && (forall id :: id in latest && id !in rest && Starts(latest[id].0) ==> exists i :: 0 <= i < |r| && r[i].0 == id)
  }

  lemma CollectOne(latest: Latest, rest: set<string>, r: seq<(string, nat)>, id: string)
    requires Collected(latest, rest, r) && id in rest && id in latest
    ensures Collected(latest, rest - {id}, if Starts(latest[id].0) then r + [(id, latest[id].1)] else r)
  {
    var more := if Starts(latest[id].0) then r + [(id, latest[id].1)] else r;
    assert forall i :: 0 <= i < |r| ==> more[i] == r[i];
    forall x | x in latest && x !in rest - {id} && Starts(latest[x].0)
      ensures exists i :: 0 <= i < |more| && more[i].0 == x {
      if x == id {
        assert more[|r|].0 == x;
      } else {
        var i :| 0 <= i < |r| && r[i].0 == x;
        assert more[i].0 == x;
      }
    }
  }

  lemma CollectedIsActive(log: Log, latest: Latest, r: seq<(string, nat)>)
    requires TracksEvery(log, Sorted(log.Keys), latest)
    requires Collected(latest, {}, r)
    ensures ListsActive(log, r)
  {
    forall id
      ensures Active(log, id) <==> id in latest && Starts(latest[id].0)
      ensures id in latest ==> LatestTime(log, id, latest[id].1)
    {
      TracksAll(log, latest, id);
    }
  }

  method CollectActive(log: Log, latest: Latest) returns (r: seq<(string, nat)>)
    requires TracksEvery(log, Sorted(log.Keys), latest)
    ensures ListsActive(log, r)
  {
    r := [];
    var rest := latest.Keys;
    while rest != {}
      invariant rest <= latest.Keys && Collected(latest, rest, r)
      decreases |rest|
    {
      var id :| id in rest;
      CollectOne(latest, rest, r, id);
      if Starts(latest[id].0) {
        r := r + [(id, latest[id].1)];
      }
      rest := rest - {id};
    }
    CollectedIsActive(log, latest, r);
  }

  // ---------- What one more append does to any log ----------

  lemma OneFirstRecord(log: Log, id: string, k1: string, k2: string)
    requires FirstRecord(log, id, k1) && FirstRecord(log, id, k2)
    ensures k1 == k2
  {
    if k1 != k2 { LexAsymmetric(k1, k2); }
  }

  lemma ActiveByFirst(log: Log, id: string, key: string)
    requires FirstRecord(log, id, key)
    ensures Active(log, id) <==> Starts(Read(log[key]))
  {
    if Active(log, id) {
      var k :| FirstRecord(log, id, k) && Starts(Read(log[k]));
      OneFirstRecord(log, id, key, k);
    }
  }

  lemma OtherVmUnaffected(log: Log, a: Append, id: string)
    requires a.now < U64 && a.entry.id != id
    ensures Active(Appended(log, a), id) <==> Active(log, id)
  {
    KeyDecodes(a.now, a.entry.id);
    forall key ensures FirstRecord(Appended(log, a), id, key) <==> FirstRecord(log, id, key) {}
  }

  /** The append scans first: it has the VM's only record, or the one it finds at the front scans no earlier. */
  lemma AppendComesFirst(log: Log, a: Append)
    requires a.now < U64
    requires forall key :: FirstRecord(log, a.entry.id, key) ==> !LexLess(key, KeyOf(a))
    ensures FirstRecord(Appended(log, a), a.entry.id, KeyOf(a))
  {
    var id := a.entry.id;
    KeyDecodes(a.now, id);
    forall k | k in log && Concerns(k, id) && k != KeyOf(a) ensures LexLess(KeyOf(a), k) {
      var key := FirstRecordExists(log, id, k);
      LexTotal(key, KeyOf(a));
      if key != k && key != KeyOf(a) { LexTransitive(KeyOf(a), key, k); }
    }
  }

  lemma FirstRecordExists(log: Log, id: string, k: string) returns (key: string)
    requires k in log && Concerns(k, id)
    ensures FirstRecord(log, id, key)
  {
    var keys := set x | x in log && Concerns(x, id);
    assert k in keys;
    LeastExists(keys);
    key :| IsLeast(key, keys);
  }

  /** Exactly what an append does, whatever the log and the clock: it leaves other VMs alone, leaves its own alone if
      the VM's first record scans before it, and otherwise decides by its own kind. */
  lemma ActiveAfterAppend(log: Log, a: Append, id: string)
    requires a.now < U64
    ensures Active(Appended(log, a), id) <==>
      if a.entry.id != id || (exists key :: FirstRecord(log, id, key) && LexLess(key, KeyOf(a))) then Active(log, id)
      else Starts(a.entry)
  {
    if a.entry.id != id {
      OtherVmUnaffected(log, a, id);
    } else if key :| FirstRecord(log, id, key) && LexLess(key, KeyOf(a)) {
      LexIrreflexive(key);
      assert FirstRecord(Appended(log, a), id, key);
      ActiveByFirst(log, id, key);
      ActiveByFirst(Appended(log, a), id, key);
    } else {
      AppendComesFirst(log, a);
      ActiveByFirst(Appended(log, a), id, KeyOf(a));
    }
  }

  /** So an active VM stays active under an append exactly when the record starts it again or scans after its first
      one: a stop deactivates it exactly when it scans no later. */
  lemma AppendKeepsActiveIff(log: Log, id: string, key0: string, a: Append)
    requires FirstRecord(log, id, key0) && Starts(Read(log[key0])) && a.entry.id == id && a.now < U64
    ensures Active(Appended(log, a), id) <==> Starts(a.entry) || LexLess(key0, KeyOf(a))
  {
    ActiveAfterAppend(log, a, id);
    ActiveByFirst(log, id, key0);
    forall key | FirstRecord(log, id, key) ensures key == key0 { OneFirstRecord(log, id, key, key0); }
  }

  lemma FirstAppendIsFirst(a: Append)
    requires a.now < U64
    ensures Written([a]) == Appended(map[], a) && FirstRecord(Written([a]), a.entry.id, KeyOf(a))
  {
    assert [] + [a] == [a];
    WrittenSnoc([], a);
    KeyDecodes(a.now, a.entry.id);
  }

  /** A stop written after the clock stepped back, with as many digits, deactivates; the same stop on a clock that went
      forward does not. */
  lemma SteppedBackClockDeactivates(start: Append, stop: Append)
    requires start.entry.VmStart? && stop.entry.VmStop? && stop.entry.id == start.entry.id
    requires start.now != stop.now && start.now < U64 && stop.now < U64 && |Digits(start.now)| == |Digits(stop.now)|
    ensures Active(Written([start]), start.entry.id)
    ensures Active(Written([start] + [stop]), start.entry.id) <==> start.now < stop.now
  {
    var id := start.entry.id;
    FirstAppendIsFirst(start);
    WrittenSnoc([start], stop);
    AppendKeepsActiveIff(Written([start]), id, KeyOf(start), stop);
    if start.now < stop.now {
      EqualDigitsScanInTimeOrder(start.now, id, stop.now, id);
    } else {
      EqualDigitsScanInTimeOrder(stop.now, id, start.now, id);
      LexAsymmetric(KeyOf(stop), KeyOf(start));
    }
  }

  // ---------- What the fold means for a history of appends ----------

  /** The append whose record the scan meets first: least key of the VM, and the last written under it. */
  ghost predicate Decides(history: seq<Append>, id: string, i: nat) {
    && i < |history| && history[i].entry.id == id
    && forall j :: 0 <= j < |history| && history[j].entry.id == id ==>
         (KeyOf(history[j]) == KeyOf(history[i]) && j <= i) || LexLess(KeyOf(history[i]), KeyOf(history[j]))
  }

  ghost predicate DecisiveStarts(history: seq<Append>, id: string) {
    exists i: nat :: Decides(history, id, i) && Starts(history[i].entry)
  }

  lemma {:induction false} LastWriter(history: seq<Append>, key: string) returns (i: nat)
    requires Wrote(history, key)
    ensures i < |history| && KeyOf(history[i]) == key && forall j :: i < j < |history| ==> KeyOf(history[j]) != key
    ensures key in Written(history) && Written(history)[key] == Readable(history[i].entry)
  {
    var n := |history| - 1;
    if KeyOf(history[n]) == key {
      i := n;
    } else {
      assert history == history[..n] + [history[n]];
      SnocWrote(history[..n], history[n], key);
      i := LastWriter(history[..n], key);
    }
  }

  /** For any history, on any clock: a VM is active exactly when its decisive append is a create or start. */
  lemma ActiveIffDecisiveStarts(history: seq<Append>, id: string)
    requires ValidClock(history)
    ensures Active(Written(history), id) <==> DecisiveStarts(history, id)
  {
    if i: nat :| Decides(history, id, i) && Starts(history[i].entry) {
      DecisiveIsFirstRecord(history, id, i);
    }
    if Active(Written(history), id) {
      var key :| FirstRecord(Written(history), id, key) && Starts(Read(Written(history)[key]));
      KeyWritten(history, key);
      var i := LastWriter(history, key);
      FirstRecordDecides(history, id, key, i);
    }
  }

  lemma DecisiveIsFirstRecord(history: seq<Append>, id: string, i: nat)
    requires ValidClock(history) && Decides(history, id, i)
    ensures FirstRecord(Written(history), id, KeyOf(history[i]))
    ensures Written(history)[KeyOf(history[i])] == Readable(history[i].entry)
  {
    var key := KeyOf(history[i]);
    KeyDecodes(history[i].now, id);
    assert Wrote(history, key);
    var w := LastWriter(history, key);
    KeyDecodes(history[w].now, history[w].entry.id);
    if w != i { LexIrreflexive(key); }
    forall k | k in Written(history) && Concerns(k, id) && k != key ensures LexLess(key, k) {
      KeyWritten(history, k);
      var j :| 0 <= j < |history| && KeyOf(history[j]) == k;
      KeyDecodes(history[j].now, history[j].entry.id);
    }
  }

  lemma FirstRecordDecides(history: seq<Append>, id: string, key: string, i: nat)
    requires ValidClock(history) && FirstRecord(Written(history), id, key)
    requires i < |history| && KeyOf(history[i]) == key && forall j :: i < j < |history| ==> KeyOf(history[j]) != key
    ensures Decides(history, id, i)
  {
    KeyDecodes(history[i].now, history[i].entry.id);
    forall j | 0 <= j < |history| && history[j].entry.id == id
      ensures (KeyOf(history[j]) == key && j <= i) || LexLess(key, KeyOf(history[j]))
    {
      KeyDecodes(history[j].now, id);
      assert Wrote(history, KeyOf(history[j]));
      KeyWritten(history, KeyOf(history[j]));
    }
  }

  ghost predicate FirstOf(history: seq<Append>, id: string, i: nat) {
    i < |history| && history[i].entry.id == id && forall j :: 0 <= j < i ==> history[j].entry.id != id
  }

  ghost predicate FirstWrittenStarts(history: seq<Append>, id: string) {
    exists i: nat :: FirstOf(history, id, i) && Starts(history[i].entry)
  }

  /** The VM's first append scans before its later ones. */
  ghost predicate FirstScansFirst(history: seq<Append>, id: string) {
    forall i: nat, j: nat :: FirstOf(history, id, i) && i < j < |history| && history[j].entry.id == id ==>
      LexLess(KeyOf(history[i]), KeyOf(history[j]))
  }

  lemma {:induction false} FirstExists(history: seq<Append>, id: string, k: nat) returns (i: nat)
    requires k < |history| && history[k].entry.id == id
    ensures FirstOf(history, id, i) && i <= k
  {
    if j :| 0 <= j < k && history[j].entry.id == id {
      i := FirstExists(history, id, j);
    } else {
      i := k;
    }
  }

  /** Where the scan meets a VM's first append first, the VM is active exactly when that append is a create or start. */
  lemma ActiveIffFirstWrittenStarts(history: seq<Append>, id: string)
    requires ValidClock(history) && FirstScansFirst(history, id)
    ensures Active(Written(history), id) <==> FirstWrittenStarts(history, id)
  {
    ActiveIffDecisiveStarts(history, id);
    if i: nat :| FirstOf(history, id, i) && Starts(history[i].entry) {
      FirstDecides(history, id, i);
    }
    if i: nat :| Decides(history, id, i) && Starts(history[i].entry) {
      var f := FirstExists(history, id, i);
      if f < i {
        LexIrreflexive(KeyOf(history[f]));
        LexAsymmetric(KeyOf(history[f]), KeyOf(history[i]));
      }
    }
  }

  lemma FirstDecides(history: seq<Append>, id: string, i: nat)
    requires FirstScansFirst(history, id) && FirstOf(history, id, i)
    ensures Decides(history, id, i)
  {
    forall j | 0 <= j < |history| && history[j].entry.id == id
      ensures (KeyOf(history[j]) == KeyOf(history[i]) && j <= i) || LexLess(KeyOf(history[i]), KeyOf(history[j]))
    {
      assert j >= i;
    }
  }

  /** For each VM, a clock that always advances and never changes its number of digits. */
  ghost predicate SteadyClock(history: seq<Append>) {
    && ValidClock(history)
    && (forall i, j :: 0 <= i < j < |history| && history[i].entry.id == history[j].entry.id ==>
         history[i].now < history[j].now && |Digits(history[i].now)| == |Digits(history[j].now)|)
  }

  lemma SteadyScansInOrder(history: seq<Append>, i: nat, j: nat)
    requires SteadyClock(history) && i < j < |history| && history[i].entry.id == history[j].entry.id
    ensures LexLess(KeyOf(history[i]), KeyOf(history[j]))
  {
    EqualDigitsScanInTimeOrder(history[i].now, history[i].entry.id, history[j].now, history[j].entry.id);
  }

  lemma SteadyScansFirst(history: seq<Append>, id: string)
    requires SteadyClock(history)
    ensures FirstScansFirst(history, id)
  {
    forall i: nat, j: nat | FirstOf(history, id, i) && i < j < |history| && history[j].entry.id == id
      ensures LexLess(KeyOf(history[i]), KeyOf(history[j]))
    {
      SteadyScansInOrder(history, i, j);
    }
  }

  /** On a steady clock nothing appended later deactivates a VM. */
  lemma {:induction false} SteadyClockKeepsActive(history: seq<Append>, more: seq<Append>, id: string)
    requires SteadyClock(history + more) && Active(Written(history), id)
    ensures Active(Written(history + more), id)
    decreases |more|
  {
    if more == [] {
      assert history + more == history;
    } else {
      var front, a := history + more[..|more| - 1], more[|more| - 1];
      assert history + more == front + [a];
      SteadyPrefix(front, a);
      SteadyClockKeepsActive(history, more[..|more| - 1], id);
      SteadyAppend(front, a, id);
    }
  }

  lemma SteadyPrefix(front: seq<Append>, a: Append)
    requires SteadyClock(front + [a])
    ensures SteadyClock(front)
  {
    assert forall i :: 0 <= i < |front| ==> (front + [a])[i] == front[i];
  }

  lemma SteadyAppend(front: seq<Append>, a: Append, id: string)
    requires SteadyClock(front + [a]) && Active(Written(front), id)
    ensures Active(Written(front + [a]), id)
  {
    var all := front + [a];
    assert all[|front|] == a;
    WrittenSnoc(front, a);
    if a.entry.id != id {
      OtherVmUnaffected(Written(front), a, id);
    } else {
      var key0 :| FirstRecord(Written(front), id, key0) && Starts(Read(Written(front)[key0]));
      KeyWritten(front, key0);
      var i :| 0 <= i < |front| && KeyOf(front[i]) == key0;
      assert all[i] == front[i];
      KeyDecodes(front[i].now, front[i].entry.id);
      SteadyScansInOrder(all, i, |front|);
      AppendKeepsActiveIff(Written(front), id, key0, a);
    }
  }

  // ---------- Whom the report covers ----------

  ghost predicate Logged(log: Log, id: string) {
    exists k :: k in log && Concerns(k, id)
  }

  /** The first scanned record of every VM is a create or start. */
  ghost predicate EveryVmBeginsWithStart(log: Log) {
    forall id, key :: FirstRecord(log, id, key) ==> Starts(Read(log[key]))
  }

  /** A record of the VM with the greatest timestamp is a create or start. */
  ghost predicate LatestStarts(log: Log, id: string) {
    exists k :: k in log && Concerns(k, id) && LatestTime(log, id, DecodeKey(k).value.0) && Starts(Read(log[k]))
  }

  lemma ActiveIffLogged(log: Log, id: string)
    requires EveryVmBeginsWithStart(log)
    ensures Active(log, id) <==> Logged(log, id)
  {
    if k :| k in log && Concerns(k, id) {
      var key := FirstRecordExists(log, id, k);
    }
  }

  /** Whatever the log: if its first scanned records start their VMs, every VM whose newest record is a create or
      start is reported, and no others exactly when there are no others in the log. */
  lemma ReportCoversLog(log: Log)
    requires EveryVmBeginsWithStart(log)
    ensures forall id :: LatestStarts(log, id) ==> Active(log, id)
    ensures (forall id :: Active(log, id) ==> LatestStarts(log, id))
       <==> (forall id :: Logged(log, id) ==> LatestStarts(log, id))
  {
    forall id
      ensures Active(log, id) <==> Logged(log, id)
      ensures LatestStarts(log, id) ==> Logged(log, id)
    {
      ActiveIffLogged(log, id);
    }
  }

  ghost predicate NewestStarts(history: seq<Append>, id: string) {
    exists i :: 0 <= i < |history| && history[i].entry.id == id && Starts(history[i].entry)
      && forall j :: i < j < |history| ==> history[j].entry.id != id
  }

  lemma LoggedByAppend(history: seq<Append>, i: nat)
    requires ValidClock(history) && i < |history|
    ensures Logged(Written(history), history[i].entry.id)
  {
    KeyDecodes(history[i].now, history[i].entry.id);
    assert Wrote(history, KeyOf(history[i]));
    KeyWritten(history, KeyOf(history[i]));
    assert Concerns(KeyOf(history[i]), history[i].entry.id);
  }

  /** The same for a history on any clock, where the newest record is the one appended last. */
  lemma ReportCoversLiveVms(history: seq<Append>)
    requires ValidClock(history) && EveryVmBeginsWithStart(Written(history))
    ensures forall id :: NewestStarts(history, id) ==> Active(Written(history), id)
    ensures (forall id :: Active(Written(history), id) ==> NewestStarts(history, id))
       <==> (forall id :: Logged(Written(history), id) ==> NewestStarts(history, id))
  {
    forall id
      ensures Active(Written(history), id) <==> Logged(Written(history), id)
      ensures NewestStarts(history, id) ==> Logged(Written(history), id)
    {
      ActiveIffLogged(Written(history), id);
      if i :| 0 <= i < |history| && history[i].entry.id == id {
        LoggedByAppend(history, i);
      }
    }
  }

  function Damage(log: Log, damaged: set<string>): Log {
    map k | k in log :: if k in damaged then Unreadable else log[k]
  }

  /** Making values unreadable, whichever and however many: a VM is active afterwards exactly when it was before or its
      first record is among them. So damage never hides a VM, and brings a stopped one back. */
  lemma CorruptionActivatesIff(log: Log, damaged: set<string>, id: string)
    ensures Active(Damage(log, damaged), id)
       <==> Active(log, id) || exists key :: FirstRecord(log, id, key) && key in damaged
  {
    var worse := Damage(log, damaged);
    forall key ensures FirstRecord(worse, id, key) <==> FirstRecord(log, id, key) {}
    if key :| FirstRecord(log, id, key) {
      ActiveByFirst(log, id, key);
      ActiveByFirst(worse, id, key);
      forall k | FirstRecord(log, id, k) ensures k == key { OneFirstRecord(log, id, k, key); }
    }
  }
}
