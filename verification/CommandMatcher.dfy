/**
 The location bridge of the device simulator: it counts the location commands in the byte stream of
 the guest with a buffer that is trimmed to one byte less than a command when it grows too long.
 */
module CommandMatcher {
  import opened Wrappers
  import opened Bytes
  import opened Streams

  /** "CMD_GET_LOCATION" */
  const COMMAND: seq<u8> := [
    0x43, 0x4D, 0x44, 0x5F, 0x47, 0x45, 0x54, 0x5F, 0x4C, 0x4F, 0x43, 0x41, 0x54, 0x49, 0x4F, 0x4E]

  const CHUNK_BYTES := 64

  predicate OccursAt(bytes: seq<u8>, needle: seq<u8>, at: nat) {
    at + |needle| <= |bytes| && forall i :: 0 <= i < |needle| ==> bytes[at + i] == needle[i]
  }

  /** The first occurrence at or after a position. */
  function Position(bytes: seq<u8>, needle: seq<u8>, from: nat): (r: Option<nat>)
    ensures r.Some? ==> from <= r.value && r.value + |needle| <= |bytes|
    decreases |bytes| - from
  {
    if from + |needle| > |bytes| then None
    else if OccursAt(bytes, needle, from) then Some(from)
    else if from < |bytes| then Position(bytes, needle, from + 1)
    else None
  }

  lemma {:induction false} PositionIsFirst(bytes: seq<u8>, needle: seq<u8>, from: nat)
    ensures var r := Position(bytes, needle, from);
            && (r.Some? ==> OccursAt(bytes, needle, r.value))
            && (r.Some? ==> forall q: nat :: from <= q < r.value ==> !OccursAt(bytes, needle, q))
            && (r.None? ==> forall q: nat :: from <= q ==> !OccursAt(bytes, needle, q))
    decreases |bytes| - from
  {
    if from + |needle| <= |bytes| && !OccursAt(bytes, needle, from) && from < |bytes| {
      PositionIsFirst(bytes, needle, from + 1);
    }
  }

  lemma PositionUnique(bytes: seq<u8>, needle: seq<u8>, from: nat, at: nat)
    requires from <= at && OccursAt(bytes, needle, at)
    requires forall q: nat :: from <= q < at ==> !OccursAt(bytes, needle, q)
    ensures Position(bytes, needle, from) == Some(at)
  {
    PositionIsFirst(bytes, needle, from);
    var r := Position(bytes, needle, from);
    assert r.Some? && !(r.value < at) && !(at < r.value);
  }

  // ---------------------------------------------------------------------------------------------
  // The reference: leftmost disjoint occurrences in the whole stream
  // ---------------------------------------------------------------------------------------------

  /** How many leftmost disjoint occurrences there are behind a position, and where the last one ends. */
  datatype Scan = Scan(count: nat, cut: nat)

  function ScanFrom(bytes: seq<u8>, n: nat, needle: seq<u8>): (s: Scan)
    requires |needle| > 0 && n <= |bytes|
    ensures n <= s.cut <= |bytes|
    decreases |bytes| - n
  {
    match Position(bytes, needle, n)
    case None => Scan(0, n)
    case Some(at) =>
      var rest := ScanFrom(bytes, at + |needle|, needle);
      Scan(rest.count + 1, rest.cut)
  }

  ghost predicate FreeFrom(bytes: seq<u8>, n: nat, needle: seq<u8>) {
    forall q: nat :: n <= q ==> !OccursAt(bytes, needle, q)
  }

  lemma {:induction false} FreeAfterCut(bytes: seq<u8>, n: nat, needle: seq<u8>)
    requires |needle| > 0 && n <= |bytes|
    ensures FreeFrom(bytes, ScanFrom(bytes, n, needle).cut, needle)
    decreases |bytes| - n
  {
    PositionIsFirst(bytes, needle, n);
    match Position(bytes, needle, n)
    case None =>
    case Some(at) => FreeAfterCut(bytes, at + |needle|, needle);
  }

  lemma OccurrenceInExtension(a: seq<u8>, b: seq<u8>, needle: seq<u8>, at: nat)
    requires at + |needle| <= |a|
    ensures OccursAt(a + b, needle, at) <==> OccursAt(a, needle, at)
  {
    assert forall k :: 0 <= k < |a| ==> (a + b)[k] == a[k];
  }

  lemma PositionInExtension(a: seq<u8>, b: seq<u8>, needle: seq<u8>, n: nat)
    requires Position(a, needle, n).Some?
    ensures Position(a + b, needle, n) == Position(a, needle, n)
  {
    PositionIsFirst(a, needle, n);
    var at := Position(a, needle, n).value;
    forall q: nat | n <= q <= at ensures OccursAt(a + b, needle, q) <==> OccursAt(a, needle, q) {
      OccurrenceInExtension(a, b, needle, q);
    }
    PositionUnique(a + b, needle, n, at);
  }

  /** Scanning in two instalments: the second starts where the last occurrence of the first ended. */
  lemma {:induction false} ScanInstalments(a: seq<u8>, b: seq<u8>, n: nat, needle: seq<u8>)
    requires |needle| > 0 && n <= |a|
    ensures var first := ScanFrom(a, n, needle);
            var second := ScanFrom(a + b, first.cut, needle);
            ScanFrom(a + b, n, needle) == Scan(first.count + second.count, second.cut)
    decreases |a| - n
  {
    match Position(a, needle, n)
    case None =>
    case Some(at) =>
      PositionInExtension(a, b, needle, n);
      ScanInstalments(a, b, at + |needle|, needle);
  }

  // ---------------------------------------------------------------------------------------------
  // Trimming
  // ---------------------------------------------------------------------------------------------

  /** What is kept of the stream: all behind the last occurrence, or at least one byte less than a needle. */
  ghost predicate Enough(stream: seq<u8>, cut: nat, k: nat, needle: seq<u8>) {
    cut <= k <= |stream| && (k == cut || |stream| - k + 1 >= |needle|)
  }

  lemma PositionPastFront(bytes: seq<u8>, n: nat, k: nat, needle: seq<u8>)
    requires n <= k && forall q: nat :: n <= q < k ==> !OccursAt(bytes, needle, q)
    ensures Position(bytes, needle, n) == Position(bytes, needle, k)
  {
    PositionIsFirst(bytes, needle, k);
    PositionIsFirst(bytes, needle, n);
    var r := Position(bytes, needle, k);
    if r.Some? {
      PositionUnique(bytes, needle, n, r.value);
    }
  }

  /** No occurrence that later bytes complete starts in the part that was trimmed away. */
  lemma NothingTrimmed(stream: seq<u8>, chunk: seq<u8>, cut: nat, k: nat, needle: seq<u8>)
    requires FreeFrom(stream, cut, needle) && Enough(stream, cut, k, needle)
    ensures forall q: nat :: cut <= q < k ==> !OccursAt(stream + chunk, needle, q)
  {
    forall q: nat | cut <= q < k ensures !OccursAt(stream + chunk, needle, q) {
      OccurrenceInExtension(stream, chunk, needle, q);
    }
  }

  /** Scanning what was kept finds what scanning the whole residue finds. */
  lemma ScanPastFront(stream: seq<u8>, chunk: seq<u8>, cut: nat, k: nat, needle: seq<u8>)
    requires |needle| > 0 && FreeFrom(stream, cut, needle) && Enough(stream, cut, k, needle)
    ensures var whole := ScanFrom(stream + chunk, cut, needle);
            var kept := ScanFrom(stream + chunk, k, needle);
            kept.count == whole.count && Enough(stream + chunk, whole.cut, kept.cut, needle)
  {
    NothingTrimmed(stream, chunk, cut, k, needle);
    PositionPastFront(stream + chunk, cut, k, needle);
  }

  lemma OccurrenceInSuffix(a: seq<u8>, x: nat, needle: seq<u8>, q: nat)
    requires x <= q && x <= |a|
    ensures OccursAt(a, needle, q) <==> OccursAt(a[x..], needle, q - x)
  {
    assert forall k :: x <= k < |a| ==> a[k] == a[x..][k - x];
    if OccursAt(a, needle, q) {
      forall i | 0 <= i < |needle| ensures a[x..][q - x + i] == needle[i] {
        assert a[q + i] == a[x..][(q + i) - x];
      }
    }
    if OccursAt(a[x..], needle, q - x) {
      forall i | 0 <= i < |needle| ensures a[q + i] == needle[i] {
        assert a[q + i] == a[x..][(q + i) - x];
      }
    }
  }

  lemma PositionShifted(a: seq<u8>, x: nat, needle: seq<u8>, n: nat)
    requires x <= |a|
    ensures Position(a, needle, x + n) == Shift(Position(a[x..], needle, n), x)
  {
    PositionIsFirst(a[x..], needle, n);
    forall q: nat | x <= q ensures OccursAt(a, needle, q) <==> OccursAt(a[x..], needle, q - x) {
      OccurrenceInSuffix(a, x, needle, q);
    }
    var r := Position(a[x..], needle, n);
    if r.Some? {
      PositionUnique(a, needle, x + n, x + r.value);
    } else {
      PositionIsFirst(a, needle, x + n);
    }
  }

  function Shift(r: Option<nat>, x: nat): Option<nat> {
    match r
    case None => None
    case Some(v) => Some(x + v)
  }

  lemma ScanStep(bytes: seq<u8>, n: nat, needle: seq<u8>, end: nat)
    requires |needle| > 0 && n <= |bytes| && |needle| <= end && Position(bytes, needle, n) == Some(end - |needle|)
    ensures ScanFrom(bytes, n, needle).count == 1 + ScanFrom(bytes, end, needle).count
    ensures ScanFrom(bytes, n, needle).cut == ScanFrom(bytes, end, needle).cut
  {
  }

  function Moved(s: Scan, x: nat): Scan {
    s.(cut := x + s.cut)
  }

  lemma {:induction false} ScanShifted(a: seq<u8>, x: nat, needle: seq<u8>, n: nat)
    requires |needle| > 0 && x + n <= |a|
    ensures ScanFrom(a, x + n, needle) == Moved(ScanFrom(a[x..], n, needle), x)
    decreases |a| - n
  {
    PositionShifted(a, x, needle, n);
    match Position(a[x..], needle, n)
    case None =>
    case Some(at) =>
      var end := at + |needle|;
      ScanShifted(a, x, needle, end);
      ScanStep(a[x..], n, needle, end);
      ScanStep(a, x + n, needle, x + end);
      assert ScanFrom(a, x + n, needle) == Moved(ScanFrom(a[x..], n, needle), x);
  }

  /** Draining up to the end of the first occurrence behind a position. */
  lemma OneDrained(all: seq<u8>, n: nat, needle: seq<u8>, next: nat)
    requires |needle| > 0 && n <= |all| && next >= |needle| && Position(all[n..], needle, 0) == Some(next - |needle|)
    ensures n + next <= |all| && all[n..][next..] == all[n + next..]
    ensures ScanFrom(all, n, needle).count == 1 + ScanFrom(all, n + next, needle).count
    ensures ScanFrom(all, n, needle).cut == ScanFrom(all, n + next, needle).cut
  {
    PositionShifted(all, n, needle, 0);
    ScanStep(all, n, needle, n + next);
    DropDrop(all, n, next);
  }

  lemma NothingLeft(all: seq<u8>, n: nat, needle: seq<u8>)
    requires |needle| > 0 && n <= |all| && Position(all[n..], needle, 0) == None
    ensures ScanFrom(all, n, needle) == Scan(0, n)
  {
    PositionShifted(all, n, needle, 0);
  }

  // ---------------------------------------------------------------------------------------------
  // The bridge
  // ---------------------------------------------------------------------------------------------

  class LocationBridge {
    const command: seq<u8>
    var pending: seq<u8>
    var replies: nat
    ghost var stream: seq<u8>

    ghost predicate Valid()
      reads this
    {
      |command| > 0 && |pending| <= 4 * |command| && Settled(stream, pending, replies, command)
    }

    constructor (command: seq<u8>)
      requires |command| > 0
      ensures Valid() && stream == [] && replies == 0 && this.command == command
    {
      this.command := command;
      pending, replies, stream := [], 0, [];
    }

    /** Drains every command from the pending bytes, answering each. */
    method Drain()
      requires |command| > 0
      modifies this`pending, this`replies
      ensures var scan := ScanFrom(old(pending), 0, command);
              pending == old(pending)[scan.cut..] && replies == old(replies) + scan.count
    {
      ghost var n := 0;
      ghost var all, whole := pending, ScanFrom(pending, 0, command);
      ghost var left := whole;
      assert all[0..] == all;
      while true
        invariant n <= |all| && pending == all[n..]
        invariant left == ScanFrom(all, n, command) && left.cut == whole.cut
        invariant replies + left.count == old(replies) + whole.count
        decreases |pending|
      {
        var index := Position(pending, command, 0);
        if index.None? {
          NothingLeft(all, n, command);
          return;
        }
        var next := index.value + |command|;
        OneDrained(all, n, command, next);
        pending := pending[next..];
        n := n + next;
        left := ScanFrom(all, n, command);
        replies := replies + 1;
      }
    }

    /** One read of the guest's output. */
    method Receive(chunk: seq<u8>)
      requires Valid() && 0 < |chunk| <= CHUNK_BYTES
      modifies this
      ensures Valid() && stream == old(stream) + chunk
    {
      DrainedSettles(stream, pending, replies, chunk, command);
      pending := pending + chunk;
      Drain();
      stream := stream + chunk;
      if |pending| > |command| * 4 {
        TrimmedSettles(stream, pending, replies, |command| - 1, command);
        pending := pending[|pending| - (|command| - 1)..];
      }
    }
  }

  /** The replies are the commands in the stream; what is pending is all that later bytes need. */
  ghost predicate Settled(stream: seq<u8>, pending: seq<u8>, replies: nat, needle: seq<u8>)
    requires |needle| > 0
  {
    SettledBy(ScanFrom(stream, 0, needle), stream, pending, replies, needle)
  }

  ghost predicate SettledBy(scan: Scan, stream: seq<u8>, pending: seq<u8>, replies: nat, needle: seq<u8>) {
    match scan
    case Scan(count, cut) =>
      && replies == count
      && |pending| <= |stream| && pending == stream[|stream| - |pending|..]
      && Enough(stream, cut, |stream| - |pending|, needle)
  }

  lemma SuffixSettles(scan: Scan, stream: seq<u8>, k: nat, needle: seq<u8>)
    requires Enough(stream, scan.cut, k, needle)
    ensures SettledBy(scan, stream, stream[k..], scan.count, needle)
  {
  }

  lemma TrimmedSettles(stream: seq<u8>, pending: seq<u8>, replies: nat, keep: nat, needle: seq<u8>)
    requires |needle| > 0 && Settled(stream, pending, replies, needle) && |needle| <= keep + 1 && keep <= |pending|
    ensures Settled(stream, pending[|pending| - keep..], replies, needle)
  {
    DropDrop(stream, |stream| - |pending|, |pending| - keep);
  }

  /** Draining the pending bytes and a new chunk settles the extended stream. */
  lemma DrainedSettles(stream: seq<u8>, pending: seq<u8>, replies: nat, chunk: seq<u8>, needle: seq<u8>)
    requires |needle| > 0 && Settled(stream, pending, replies, needle)
    ensures var scan := ScanFrom(pending + chunk, 0, needle);
            Settled(stream + chunk, (pending + chunk)[scan.cut..], replies + scan.count, needle)
  {
    KeptAndChunk(stream, pending, chunk);
    KeptSettles(stream, pending, replies, chunk, stream + chunk, pending + chunk, needle);
  }

  lemma KeptSettles(stream: seq<u8>, pending: seq<u8>, replies: nat, chunk: seq<u8>,
                    all: seq<u8>, kept: seq<u8>, needle: seq<u8>)
    requires |needle| > 0 && Settled(stream, pending, replies, needle)
    requires all == stream + chunk && |pending| <= |stream| && kept == all[|stream| - |pending|..]
    ensures var scan := ScanFrom(kept, 0, needle);
            SettledBy(ScanFrom(all, 0, needle), all, kept[scan.cut..], replies + scan.count, needle)
  {
    var k := |stream| - |pending|;
    KeptScan(stream, chunk, all, k, kept, needle);
    DropDrop(all, k, ScanFrom(kept, 0, needle).cut);
  }

  lemma KeptAndChunk(stream: seq<u8>, pending: seq<u8>, chunk: seq<u8>)
    requires |pending| <= |stream| && pending == stream[|stream| - |pending|..]
    ensures (stream + chunk)[|stream| - |pending|..] == pending + chunk
  {
  }

  /** The same, counted in the kept bytes alone. */
  lemma KeptScan(stream: seq<u8>, chunk: seq<u8>, all: seq<u8>, k: nat, kept: seq<u8>, needle: seq<u8>)
    requires |needle| > 0 && all == stream + chunk && Enough(stream, ScanFrom(stream, 0, needle).cut, k, needle)
    requires kept == all[k..]
    ensures var after := ScanFrom(all, 0, needle);
            var scan := ScanFrom(kept, 0, needle);
            && after.count == ScanFrom(stream, 0, needle).count + scan.count
            && SettledBy(after, all, all[k + scan.cut..], after.count, needle)
  {
    ExtendedScan(stream, chunk, all, k, needle);
    ScanShifted(all, k, needle, 0);
    SuffixSettles(ScanFrom(all, 0, needle), all, k + ScanFrom(kept, 0, needle).cut, needle);
  }

  /** What the extended stream holds, counted from the kept bytes on. */
  lemma ExtendedScan(stream: seq<u8>, chunk: seq<u8>, all: seq<u8>, k: nat, needle: seq<u8>)
    requires |needle| > 0 && all == stream + chunk && Enough(stream, ScanFrom(stream, 0, needle).cut, k, needle)
    ensures var after := ScanFrom(all, 0, needle);
            var kept := ScanFrom(all, k, needle);
            && after.count == ScanFrom(stream, 0, needle).count + kept.count
            && Enough(all, after.cut, kept.cut, needle)
  {
    var cut := ScanFrom(stream, 0, needle).cut;
    FreeAfterCut(stream, 0, needle);
    ScanInstalments(stream, chunk, 0, needle);
    ScanPastFront(stream, chunk, cut, k, needle);
  }

  lemma DropDrop(s: seq<u8>, k: nat, d: nat)
    requires k + d <= |s|
    ensures s[k..][d..] == s[k + d..]
  {
  }

  lemma FlattenStep(chunks: seq<seq<u8>>, i: nat)
    requires i < |chunks|
    ensures Flatten(chunks[i..]) == chunks[i] + Flatten(chunks[i + 1..])
  {
    assert chunks[i..][1..] == chunks[i + 1..];
  }

  lemma Reassociate(a: seq<u8>, b: seq<u8>, c: seq<u8>)
    ensures (a + b) + c == a + (b + c)
  {
  }

  /**
   However the guest's output is cut into reads, the bridge has answered exactly the leftmost
   disjoint commands of the stream, and never keeps more than four commands' worth of bytes.
   */
  method Serve(chunks: seq<seq<u8>>) returns (replies: nat)
    requires forall c <- chunks :: 0 < |c| <= CHUNK_BYTES
    ensures replies == ScanFrom(Flatten(chunks), 0, COMMAND).count
  {
    var bridge := new LocationBridge(COMMAND);
    for i := 0 to |chunks|
      invariant fresh(bridge) && bridge.Valid() && bridge.command == COMMAND
      invariant bridge.stream + Flatten(chunks[i..]) == Flatten(chunks)
    {
      FlattenStep(chunks, i);
      Reassociate(bridge.stream, chunks[i], Flatten(chunks[i + 1..]));
      bridge.Receive(chunks[i]);
    }
    assert chunks[|chunks|..] == [];
    assert bridge.stream == Flatten(chunks);
    replies := bridge.replies;
  }

  // ---------------------------------------------------------------------------------------------
  // Disjoint or not: the command does not overlap itself
  // ---------------------------------------------------------------------------------------------

  /** The number of positions, from one on, at which the needle stands. */
  function Positions(bytes: seq<u8>, needle: seq<u8>, from: nat): nat
    decreases |bytes| - from
  {
    if from >= |bytes| then 0
    else (if OccursAt(bytes, needle, from) then 1 else 0) + Positions(bytes, needle, from + 1)
  }

  /** No proper end of the needle is also its beginning. */
  ghost predicate Unbordered(needle: seq<u8>) {
    forall k :: 0 < k < |needle| ==> needle[k..] != needle[..|needle| - k]
  }

  lemma CommandIsUnbordered()
    ensures Unbordered(COMMAND)
  {
    forall k | 0 < k < |COMMAND| ensures COMMAND[k..] != COMMAND[..|COMMAND| - k] {
      assert COMMAND[k..][|COMMAND| - k - 1] == 0x4E;
      assert COMMAND[..|COMMAND| - k][|COMMAND| - k - 1] == COMMAND[|COMMAND| - k - 1];
    }
  }

  lemma NoOverlap(bytes: seq<u8>, needle: seq<u8>, p: nat, q: nat)
    requires Unbordered(needle) && OccursAt(bytes, needle, p) && p < q < p + |needle|
    ensures !OccursAt(bytes, needle, q)
  {
    var k := q - p;
    var i :| 0 <= i < |needle| - k && needle[k..][i] != needle[..|needle| - k][i];
    assert bytes[p + (k + i)] == needle[k + i] != needle[i];
    assert q + |needle| <= |bytes| ==> bytes[q + i] == bytes[p + (k + i)];
  }

  lemma {:induction false} NoneBetween(bytes: seq<u8>, needle: seq<u8>, from: nat, to: nat)
    requires from <= to <= |bytes| && forall q: nat :: from <= q < to ==> !OccursAt(bytes, needle, q)
    ensures Positions(bytes, needle, from) == Positions(bytes, needle, to)
    decreases |bytes| - from
  {
    if from < to {
      NoneBetween(bytes, needle, from + 1, to);
    }
  }

  /** The next occurrence is one position; the others are the positions behind it. */
  lemma PositionsUnfold(bytes: seq<u8>, n: nat, needle: seq<u8>, at: nat)
    requires |needle| > 0 && Unbordered(needle) && n <= at && OccursAt(bytes, needle, at)
    requires forall q: nat :: n <= q < at ==> !OccursAt(bytes, needle, q)
    ensures Positions(bytes, needle, n) == 1 + Positions(bytes, needle, at + |needle|)
  {
    forall q: nat | at + 1 <= q < at + |needle| ensures !OccursAt(bytes, needle, q) {
      NoOverlap(bytes, needle, at, q);
    }
    NoneBetween(bytes, needle, n, at);
    NoneBetween(bytes, needle, at + 1, at + |needle|);
  }

  /** For a needle that does not overlap itself, the leftmost disjoint occurrences are all of them. */
  lemma {:induction false} ScanCountsPositions(bytes: seq<u8>, n: nat, needle: seq<u8>)
    requires |needle| > 0 && Unbordered(needle) && n <= |bytes|
    ensures ScanFrom(bytes, n, needle).count == Positions(bytes, needle, n)
    decreases |bytes| - n
  {
    PositionIsFirst(bytes, needle, n);
    match Position(bytes, needle, n)
    case None => NoneBetween(bytes, needle, n, |bytes|);
    case Some(at) =>
      PositionsUnfold(bytes, n, needle, at);
      ScanCountsPositions(bytes, at + |needle|, needle);
  }

  /** The text "CMD_GET_LOCATION" stands at a position. */
  predicate CommandAt(bytes: seq<u8>, p: nat) {
    p + 16 <= |bytes| && forall i :: 0 <= i < 16 ==> bytes[p + i] as char == "CMD_GET_LOCATION"[i]
  }

  /** Where it stands in some bytes, from a position on. */
  function Places(bytes: seq<u8>, from: nat): set<nat> {
    set p: nat | from <= p <= |bytes| && CommandAt(bytes, p)
  }

  lemma CommandIsText(bytes: seq<u8>, p: nat)
    ensures OccursAt(bytes, COMMAND, p) <==> CommandAt(bytes, p)
  {
    assert forall i :: 0 <= i < 16 ==> COMMAND[i] as char == "CMD_GET_LOCATION"[i];
  }

  lemma {:induction false} PositionsArePlaces(bytes: seq<u8>, from: nat)
    ensures Positions(bytes, COMMAND, from) == |Places(bytes, from)|
    decreases |bytes| - from
  {
    if from + 16 > |bytes| {
      NoneBetween(bytes, COMMAND, if from <= |bytes| then from else |bytes|, |bytes|);
      assert Places(bytes, from) == {};
    } else {
      PositionsArePlaces(bytes, from + 1);
      CommandIsText(bytes, from);
      var first: set<nat> := if OccursAt(bytes, COMMAND, from) then {from} else {};
      assert Places(bytes, from) == first + Places(bytes, from + 1);
    }
  }

  /** The replies of the bridge count every position at which the text of the command stands. */
  lemma CommandsAreCounted(bytes: seq<u8>)
    ensures ScanFrom(bytes, 0, COMMAND).count == |Places(bytes, 0)|
  {
    CommandIsUnbordered();
    ScanCountsPositions(bytes, 0, COMMAND);
    PositionsArePlaces(bytes, 0);
  }
}
