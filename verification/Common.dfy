/** Option and Result, used for the absent values and error returns of the modelled code. */
module Wrappers {
  datatype Option<+T> = None | Some(value: T)

  datatype Result<+T, +E> = Success(value: T) | Failure(error: E)
}

/** Letter case, which the modelled code folds for ASCII letters only, and searching for a character. */
module Characters {
  import opened Wrappers

  function Lower(c: char): char {
    if 'A' <= c <= 'Z' then (c as int + 32) as char else c
  }

  function FirstChar(s: string, c: char, from: nat): (r: Option<nat>)
    ensures r.Some? ==> from <= r.value < |s| && s[r.value] == c
    decreases |s| - from
  {
    if from >= |s| then None else if s[from] == c then Some(from) else FirstChar(s, c, from + 1)
  }

  lemma {:induction false} NoneBeforeFirst(s: string, c: char, from: nat)
    ensures var r := FirstChar(s, c, from);
            forall i :: from <= i < (if r.Some? then r.value else |s|) ==> s[i] != c
    decreases |s| - from
  {
    if from < |s| && s[from] != c {
      NoneBeforeFirst(s, c, from + 1);
    }
  }

  lemma {:induction false} FirstCharIsFirst(s: string, c: char, from: nat, at: nat)
    requires from <= at <= |s| && (at < |s| ==> s[at] == c) && forall i :: from <= i < at ==> s[i] != c
    ensures FirstChar(s, c, from) == if at < |s| then Some(at) else None
    decreases at - from
  {
    if from < at {
      FirstCharIsFirst(s, c, from + 1, at);
    }
  }
}

/** Machine-width integers and little-endian fields shared by the wire formats. */
module Bytes {
  type u8 = x: int | 0 <= x < 0x100
  type u16 = x: int | 0 <= x < 0x1_0000
  type u32 = x: int | 0 <= x < 0x1_0000_0000
  type u64 = x: int | 0 <= x < 0x1_0000_0000_0000_0000

  const U32_MAX: u32 := 0xFFFF_FFFF
  const U64_MAX: u64 := 0xFFFF_FFFF_FFFF_FFFF

  function Min(a: int, b: int): int {
    if a < b then a else b
  }

  // Little-endian fields, as Rust's to_le_bytes and from_le_bytes lay them out.

  function Le16(v: u16): (b: seq<u8>)
    ensures |b| == 2
  {
    [v % 0x100, v / 0x100]
  }

  function Le32(v: u32): (b: seq<u8>)
    ensures |b| == 4
  {
    [v % 0x100, v / 0x100 % 0x100, v / 0x100 / 0x100 % 0x100, v / 0x100 / 0x100 / 0x100]
  }

  function Le64(v: u64): (b: seq<u8>)
    ensures |b| == 8
  {
    Le32(v % 0x1_0000_0000) + Le32(v / 0x1_0000_0000)
  }

  function U16At(s: seq<u8>, at: nat): u16
    requires at + 2 <= |s|
  {
    var lo: int, hi: int := s[at], s[at + 1];
    lo + 0x100 * hi
  }

  function U32At(s: seq<u8>, at: nat): u32
    requires at + 4 <= |s|
  {
    var lo: int, hi: int := U16At(s, at), U16At(s, at + 2);
    lo + 0x1_0000 * hi
  }

  function U64At(s: seq<u8>, at: nat): u64
    requires at + 8 <= |s|
  {
    var lo: int, hi: int := U32At(s, at), U32At(s, at + 4);
    lo + 0x1_0000_0000 * hi
  }

  lemma Read16(s: seq<u8>, at: nat, v: u16)
    requires at + 2 <= |s| && s[at..at + 2] == Le16(v)
    ensures U16At(s, at) == v
  {
    assert s[at] == s[at..at + 2][0] && s[at + 1] == s[at..at + 2][1];
  }

  lemma Read32(s: seq<u8>, at: nat, v: u32)
    requires at + 4 <= |s| && s[at..at + 4] == Le32(v)
    ensures U32At(s, at) == v
  {
    assert s[at] == s[at..at + 4][0] && s[at + 1] == s[at..at + 4][1];
    assert s[at + 2] == s[at..at + 4][2] && s[at + 3] == s[at..at + 4][3];
    var b := v / 0x100;
    var c := b / 0x100;
    assert v == v % 0x100 + 0x100 * b;
    assert b == b % 0x100 + 0x100 * c;
    assert c == c % 0x100 + 0x100 * (c / 0x100);
    assert U16At(s, at) == v % 0x100 + 0x100 * (b % 0x100);
    assert U16At(s, at + 2) == c;
  }

  lemma Read64(s: seq<u8>, at: nat, v: u64)
    requires at + 8 <= |s| && s[at..at + 8] == Le64(v)
    ensures U64At(s, at) == v
  {
    assert s[at..at + 4] == Le64(v)[..4] && s[at + 4..at + 8] == Le64(v)[4..];
    Read32(s, at, v % 0x1_0000_0000);
    Read32(s, at + 4, v / 0x1_0000_0000);
  }

  /** The middle part of a concatenation. */
  lemma Middle(a: seq<u8>, b: seq<u8>, c: seq<u8>)
    ensures (a + b + c)[|a|..|a| + |b|] == b
  {
  }
}

/**
 Incremental readers. A reader takes the first item off a byte string, asks for more bytes, or
 rejects the bytes; a service extends its residue with each chunk it receives and takes what it can.
 */
module Streams {
  import opened Wrappers
  import opened Bytes

  datatype Next<T> = Got(item: T, rest: seq<u8>) | Wait | Bad

  datatype Reading<T> = Reading(items: seq<T>, rest: seq<u8>, bad: bool)

  type Reader<!T> = seq<u8> -> Next<T>

  /** Every complete item of a byte string, what is left over, and whether it was rejected there. */
  function ReadItems<T>(read: Reader<T>, bytes: seq<u8>): Reading<T>
    decreases |bytes|
  {
    match read(bytes)
    case Wait => Reading([], bytes, false)
    case Bad => Reading([], bytes, true)
    case Got(item, rest) =>
      if |rest| >= |bytes| then Reading([], bytes, true) else Then(item, ReadItems(read, rest))
  }

  function Then<T>(item: T, more: Reading<T>): Reading<T> {
    more.(items := [item] + more.items)
  }

  lemma ReadStep<T>(read: Reader<T>, bytes: seq<u8>, item: T, rest: seq<u8>)
    requires read(bytes) == Got(item, rest) && |rest| < |bytes|
    ensures ReadItems(read, bytes) == Then(item, ReadItems(read, rest))
  {
  }

  /** Bytes arriving later change neither an item already complete nor a rejection. */
  ghost predicate ExtendsAt<T>(read: Reader<T>, bytes: seq<u8>, more: seq<u8>) {
    match read(bytes)
    case Wait => true
    case Bad => read(bytes + more).Bad?
    case Got(item, rest) => read(bytes + more) == Got(item, rest + more) && |rest| < |bytes|
  }

  ghost predicate Extensible<T(!new)>(read: Reader<T>) {
    forall bytes, more :: ExtendsAt(read, bytes, more)
  }

  /** A reading of some bytes, carried on when more bytes have arrived. */
  function Resumed<T>(first: Reading<T>, more: seq<u8>, second: Reading<T>): Reading<T> {
    if first.bad then first.(rest := first.rest + more) else second.(items := first.items + second.items)
  }

  /** Reading in two instalments: the residue of the first is all the second needs. */
  lemma {:induction false} TwoInstalments<T(!new)>(read: Reader<T>, a: seq<u8>, b: seq<u8>)
    requires Extensible(read)
    ensures ReadItems(read, a + b) == Resumed(ReadItems(read, a), b, ReadItems(read, ReadItems(read, a).rest + b))
    decreases |a|
  {
    assert ExtendsAt(read, a, b);
    match read(a)
    case Wait =>
    case Bad =>
    case Got(item, rest) =>
      TwoInstalments(read, rest, b);
      assert ReadItems(read, a + b) == Then(item, ReadItems(read, rest + b));
      ThenResumed(item, ReadItems(read, rest), b, ReadItems(read, ReadItems(read, rest).rest + b));
  }

  lemma ThenResumed<T>(item: T, first: Reading<T>, more: seq<u8>, second: Reading<T>)
    ensures Then(item, Resumed(first, more, second)) == Resumed(Then(item, first), more, second)
  {
    assert [item] + (first.items + second.items) == [item] + first.items + second.items;
  }

  function Flatten(chunks: seq<seq<u8>>): seq<u8> {
    if chunks == [] then [] else chunks[0] + Flatten(chunks[1..])
  }

  lemma FlattenOne(a: seq<u8>)
    ensures Flatten([a]) == a
  {
    assert [a][1..] == [];
    assert a + [] == a;
  }

  lemma FlattenTwo(a: seq<u8>, b: seq<u8>)
    ensures Flatten([a, b]) == a + b
  {
    assert [a, b][1..] == [b];
    FlattenOne(b);
  }

  /** The residue of a reading holds no further item. */
  lemma {:induction false} NothingLeftToRead<T(!new)>(read: Reader<T>, bytes: seq<u8>)
    requires !ReadItems(read, bytes).bad
    ensures ReadItems(read, ReadItems(read, bytes).rest) == Reading([], ReadItems(read, bytes).rest, false)
    decreases |bytes|
  {
    match read(bytes)
    case Wait =>
    case Got(item, rest) => NothingLeftToRead(read, rest);
  }

  function WriteItems<T>(write: T --> seq<u8>, items: seq<T>): seq<u8>
    requires forall i <- items :: write.requires(i)
  {
    if items == [] then [] else write(items[0]) + WriteItems(write, items[1..])
  }

  /** A reader that undoes a writer on single items undoes it on every sequence, consuming every byte. */
  lemma {:induction false} ItemsRoundTrip<T(!new)>(read: Reader<T>, write: T --> seq<u8>, items: seq<T>)
    requires forall i <- items :: write.requires(i) && |write(i)| > 0
    requires forall i <- items, rest: seq<u8> :: read(write(i) + rest) == Got(i, rest)
    requires read([]) == Wait
    ensures ReadItems(read, WriteItems(write, items)) == Reading(items, [], false)
    decreases |items|
  {
    if items != [] {
      var rest := WriteItems(write, items[1..]);
      assert read(write(items[0]) + rest) == Got(items[0], rest);
      ItemsRoundTrip(read, write, items[1..]);
    }
  }

  // ---------------------------------------------------------------------------------------------
  // A service: items read from chunks drive a machine
  // ---------------------------------------------------------------------------------------------

  datatype Step<S> = Refuse | Go(state: S, output: seq<u8>)

  type Machine<!S, !T> = (S, T) -> Step<S>

  /** The state and output of a machine over a list of items, up to the first one it refuses. */
  datatype Run<S> = Run(state: S, output: seq<u8>, refused: bool)

  function RunItems<S, T>(step: Machine<S, T>, s: S, items: seq<T>): Run<S>
    decreases |items|
  {
    if items == [] then Run(s, [], false)
    else
      match step(s, items[0])
      case Refuse => Run(s, [], true)
      case Go(next, output) => After(output, RunItems(step, next, items[1..]))
  }

  function After<S>(output: seq<u8>, later: Run<S>): Run<S> {
    later.(output := output + later.output)
  }

  /** Running two lists one after the other. */
  function Continue<S>(first: Run<S>, second: Run<S>): Run<S> {
    if first.refused then first else Run(second.state, first.output + second.output, second.refused)
  }

  lemma {:induction false} RunInstalments<S, T>(step: Machine<S, T>, s: S, a: seq<T>, b: seq<T>)
    ensures var first := RunItems(step, s, a);
            RunItems(step, s, a + b) == Continue(first, RunItems(step, first.state, b))
    decreases |a|
  {
    if a == [] {
      assert a + b == b;
    } else {
      assert (a + b)[1..] == a[1..] + b;
      match step(s, a[0])
      case Refuse =>
      case Go(next, output) =>
        RunInstalments(step, next, a[1..], b);
        var first := RunItems(step, next, a[1..]);
        Joined(output, first.output, RunItems(step, first.state, b).output);
    }
  }

  lemma Joined(a: seq<u8>, b: seq<u8>, c: seq<u8>)
    ensures a + (b + c) == (a + b) + c
  {
  }

  /** One step keeps an invariant between the state and the list of items taken so far. */
  ghost predicate KeptAt<S, T>(step: Machine<S, T>, inv: (S, seq<T>) -> bool, s: S, done: seq<T>, item: T) {
    match step(s, item)
    case Refuse => true
    case Go(next, _) => inv(s, done) ==> inv(next, done + [item])
  }

  ghost predicate Kept<S(!new), T(!new)>(step: Machine<S, T>, inv: (S, seq<T>) -> bool) {
    match (step, inv)
    case (f, i) => forall s, done, item :: KeptAt(f, i, s, done, item)
  }

  /** What every step keeps, every run keeps. */
  lemma {:induction false} RunKeeps<S(!new), T(!new)>(
    step: Machine<S, T>, inv: (S, seq<T>) -> bool, s: S, done: seq<T>, items: seq<T>)
    requires Kept(step, inv) && inv(s, done) && !RunItems(step, s, items).refused
    ensures inv(RunItems(step, s, items).state, done + items)
    decreases |items|
  {
    if items == [] {
      assert done + items == done;
    } else {
      assert KeptAt(step, inv, s, done, items[0]);
      RunKeeps(step, inv, step(s, items[0]).state, done + [items[0]], items[1..]);
      assert done + [items[0]] + items[1..] == done + items;
    }
  }

  datatype Failure = TooLong | BadItem | Refused

  /** The state of a service, its unread bytes, what it has sent, and why it stopped. */
  datatype Service<S> = Service(state: S, residue: seq<u8>, output: seq<u8>, failure: Option<Failure>)

  /** Everything that can be read of some bytes, run through the machine. */
  function Digest<S, T>(read: Reader<T>, step: Machine<S, T>, s: S, bytes: seq<u8>): Service<S> {
    var reading := ReadItems(read, bytes);
    var run := RunItems(step, s, reading.items);
    Service(run.state, reading.rest, run.output,
            if run.refused then Some(Refused) else if reading.bad then Some(BadItem) else None)
  }

  /** One chunk: the unread bytes may not outgrow the limit, and a failure loses the output of its chunk. */
  function Receive<S, T>(read: Reader<T>, step: Machine<S, T>, limit: nat, s: S, residue: seq<u8>, chunk: seq<u8>)
    : Service<S>
  {
    if |residue + chunk| > limit then Service(s, residue, [], Some(TooLong))
    else
      var now := Digest(read, step, s, residue + chunk);
      if now.failure.Some? then now.(output := []) else now
  }

  function Serve<S, T>(read: Reader<T>, step: Machine<S, T>, limit: nat, s: S, residue: seq<u8>, chunks: seq<seq<u8>>)
    : Service<S>
    decreases |chunks|
  {
    if chunks == [] then Service(s, residue, [], None)
    else
      var now := Receive(read, step, limit, s, residue, chunks[0]);
      if now.failure.Some? then now
      else
        Onward(now.output, Serve(read, step, limit, now.state, now.residue, chunks[1..]))
  }

  /** Digesting bytes that start with an item: one step, then the rest. */
  lemma DigestStep<S, T>(read: Reader<T>, step: Machine<S, T>, s: S, bytes: seq<u8>)
    requires read(bytes).Got? && |read(bytes).rest| < |bytes|
    ensures match step(s, read(bytes).item)
            case Refuse => Digest(read, step, s, bytes).failure == Some(Refused)
                           && Digest(read, step, s, bytes).output == [] && Digest(read, step, s, bytes).state == s
            case Go(next, output) =>
              Digest(read, step, s, bytes) == Onward(output, Digest(read, step, next, read(bytes).rest))
  {
    assert ReadItems(read, bytes).items[1..] == ReadItems(read, read(bytes).rest).items;
  }

  /** What a service ends as that has already sent something. */
  function Onward<S>(output: seq<u8>, later: Service<S>): Service<S> {
    later.(output := output + later.output)
  }

  /** Digesting in two instalments. */
  lemma DigestInstalments<S, T(!new)>(read: Reader<T>, step: Machine<S, T>, s: S, a: seq<u8>, b: seq<u8>)
    requires Extensible(read)
    ensures var first := Digest(read, step, s, a);
            var whole := Digest(read, step, s, a + b);
            if first.failure.Some? then
              whole.failure == first.failure && whole.output == first.output && whole.state == first.state
            else whole == Onward(first.output, Digest(read, step, first.state, first.residue + b))
  {
    TwoInstalments(read, a, b);
    var first := ReadItems(read, a);
    var second := ReadItems(read, first.rest + b);
    RunInstalments(step, s, first.items, second.items);
  }

  ghost predicate Prefix(a: seq<u8>, b: seq<u8>) {
    |a| <= |b| && b[..|a|] == a
  }

  /** A chunked service against the digest of the whole stream. */
  ghost predicate Agrees<S>(served: Service<S>, whole: Service<S>) {
    match served.failure
    case None => served == whole
    case Some(TooLong) => Prefix(served.output, whole.output)
    case Some(_) =>
      served.failure == whole.failure && served.state == whole.state && Prefix(served.output, whole.output)
  }

  /**
   However a stream is cut into chunks, a service that does not fail ends exactly as the digest of the
   stream. One that fails on an item ends in the digest's state with the digest's failure, and what it
   has sent is a front part of the digest's output, as it is when the limit stops it.
   */
  lemma {:induction false} ServeAgrees<S, T(!new)>(
    read: Reader<T>, step: Machine<S, T>, limit: nat, s: S, residue: seq<u8>, chunks: seq<seq<u8>>)
    requires Extensible(read) && ReadItems(read, residue) == Reading([], residue, false)
    ensures Agrees(Serve(read, step, limit, s, residue, chunks), Digest(read, step, s, residue + Flatten(chunks)))
    decreases |chunks|
  {
    if chunks == [] {
      assert residue + Flatten(chunks) == residue;
    } else if |residue + chunks[0]| <= limit {
      var tail := Flatten(chunks[1..]);
      Joined(residue, chunks[0], tail);
      DigestInstalments(read, step, s, residue + chunks[0], tail);
      var now := Digest(read, step, s, residue + chunks[0]);
      if now.failure.None? {
        NothingLeftToRead(read, residue + chunks[0]);
        ServeAgrees(read, step, limit, now.state, now.residue, chunks[1..]);
        AgreesAfter(now.output, Serve(read, step, limit, now.state, now.residue, chunks[1..]),
                    Digest(read, step, now.state, now.residue + tail));
      }
    }
  }

  lemma AgreesAfter<S>(output: seq<u8>, served: Service<S>, whole: Service<S>)
    requires Agrees(served, whole)
    ensures Agrees(Onward(output, served), Onward(output, whole))
  {
    if Prefix(served.output, whole.output) {
      assert (output + whole.output)[..|output + served.output|] == output + whole.output[..|served.output|];
    }
  }

  // ---------------------------------------------------------------------------------------------
  // What a failing service has sent
  // ---------------------------------------------------------------------------------------------

  /** A stream that fits the limit never meets it, however it is cut. */
  lemma {:induction false} LimitNotMet<S, T(!new)>(
    read: Reader<T>, step: Machine<S, T>, limit: nat, s: S, residue: seq<u8>, chunks: seq<seq<u8>>)
    requires Extensible(read) && |residue| + |Flatten(chunks)| <= limit
    ensures Serve(read, step, limit, s, residue, chunks).failure != Some(TooLong)
    decreases |chunks|
  {
    if chunks != [] {
      var now := Receive(read, step, limit, s, residue, chunks[0]);
      if now.failure.None? {
        ReadingShrinks(read, residue + chunks[0]);
        LimitNotMet(read, step, limit, now.state, now.residue, chunks[1..]);
      }
    }
  }

  lemma {:induction false} ReadingShrinks<T(!new)>(read: Reader<T>, bytes: seq<u8>)
    ensures |ReadItems(read, bytes).rest| <= |bytes|
    decreases |bytes|
  {
    var next := read(bytes);
    if next.Got? && |next.rest| < |bytes| {
      ReadingShrinks(read, next.rest);
    }
  }

  /** An item is complete without the bytes behind it. */
  ghost predicate StandsAlone<T>(read: Reader<T>, bytes: seq<u8>) {
    match read(bytes)
    case Got(item, rest) =>
      && |rest| < |bytes| && bytes[|bytes| - |rest|..] == rest
      && read(bytes[..|bytes| - |rest|]) == Got(item, [])
    case _ => true
  }

  ghost predicate SelfContained<T(!new)>(read: Reader<T>) {
    read([]) == Wait && forall bytes :: StandsAlone(read, bytes)
  }

  /** The first item alone. */
  lemma DigestOne<S, T(!new)>(read: Reader<T>, step: Machine<S, T>, s: S, bytes: seq<u8>)
    requires SelfContained(read) && read(bytes).Got? && step(s, read(bytes).item).Go?
    ensures StandsAlone(read, bytes)
    ensures var go := step(s, read(bytes).item);
            Digest(read, step, s, bytes[..|bytes| - |read(bytes).rest|]) == Service(go.state, [], go.output, None)
  {
    assert StandsAlone(read, bytes);
    var one := bytes[..|bytes| - |read(bytes).rest|];
    var go := step(s, read(bytes).item);
    DigestStep(read, step, s, one);
    assert Digest(read, step, go.state, []) == Service(go.state, [], [], None);
    assert go.output + [] == go.output;
  }

  /** A stream that fails can be cut in front of what fails. */
  lemma {:induction false} CutBeforeFailure<S, T(!new)>(read: Reader<T>, step: Machine<S, T>, s: S, bytes: seq<u8>)
    returns (cut: nat)
    requires Extensible(read) && SelfContained(read) && Digest(read, step, s, bytes).failure.Some?
    ensures cut <= |bytes| && Digest(read, step, s, bytes[..cut]).failure.None?
    ensures Digest(read, step, s, bytes[..cut]).output == Digest(read, step, s, bytes).output
    decreases |bytes|
  {
    cut := 0;
    var next := read(bytes);
    if next.Got? {
      assert StandsAlone(read, bytes);
      DigestStep(read, step, s, bytes);
      var taken := step(s, next.item);
      if taken.Go? {
        var more := CutBeforeFailure(read, step, taken.state, next.rest);
        var n := |bytes| - |next.rest|;
        cut := n + more;
        CutBehind(bytes, n, more);
        DigestOne(read, step, s, bytes);
        DigestInstalments(read, step, s, bytes[..n], next.rest[..more]);
        assert [] + next.rest[..more] == next.rest[..more];
      }
    }
  }

  lemma CutBehind(bytes: seq<u8>, n: nat, more: nat)
    requires n + more <= |bytes|
    ensures bytes[..n + more] == bytes[..n] + bytes[n..][..more]
  {
  }

  /** Reads that deliver nothing are not passed on. */
  predicate NoneEmpty(chunks: seq<seq<u8>>) {
    forall i :: 0 <= i < |chunks| ==> chunks[i] != []
  }

  /** Whether a service sends the same however a stream is cut as it sends for the uncut stream. */
  ghost predicate SendsAlike<S, T(!new)>(read: Reader<T>, step: Machine<S, T>, limit: nat, s: S, stream: seq<u8>) {
    forall chunks :: NoneEmpty(chunks) && Flatten(chunks) == stream ==>
      Serve(read, step, limit, s, [], chunks).output == Serve(read, step, limit, s, [], [stream]).output
  }

  /**
   For streams that fit the limit: what is sent is independent of the cuts exactly when the stream does
   not fail, or has nothing to send before it fails; otherwise a read that fails keeps back what an
   earlier one would have sent.
   */
  lemma SendsAlikeExactly<S, T(!new)>(read: Reader<T>, step: Machine<S, T>, limit: nat, s: S, stream: seq<u8>)
    requires Extensible(read) && SelfContained(read) && |stream| <= limit
    ensures var whole := Digest(read, step, s, stream);
            SendsAlike(read, step, limit, s, stream) <==> whole.failure.None? || whole.output == []
  {
    var whole := Digest(read, step, s, stream);
    if whole.failure.None? || whole.output == [] {
      forall chunks | NoneEmpty(chunks) && Flatten(chunks) == stream
        ensures Serve(read, step, limit, s, [], chunks).output == Serve(read, step, limit, s, [], [stream]).output
      {
        SentWhole(read, step, limit, s, stream, chunks);
        FlattenOne(stream);
        SentWhole(read, step, limit, s, stream, [stream]);
      }
    } else {
      CutsDiffer(read, step, limit, s, stream);
    }
  }

  lemma SentWhole<S, T(!new)>(
    read: Reader<T>, step: Machine<S, T>, limit: nat, s: S, stream: seq<u8>, chunks: seq<seq<u8>>)
    requires Extensible(read) && SelfContained(read) && |stream| <= limit && Flatten(chunks) == stream
    requires Digest(read, step, s, stream).failure.None? || Digest(read, step, s, stream).output == []
    ensures Serve(read, step, limit, s, [], chunks).output == Digest(read, step, s, stream).output
  {
    assert [] + stream == stream;
    ServeAgrees(read, step, limit, s, [], chunks);
    LimitNotMet(read, step, limit, s, [], chunks);
  }

  /** A failing stream in one read, and in two reads cut in front of what fails. */
  lemma CutsDiffer<S, T(!new)>(read: Reader<T>, step: Machine<S, T>, limit: nat, s: S, stream: seq<u8>)
    requires Extensible(read) && SelfContained(read) && |stream| <= limit
    requires Digest(read, step, s, stream).failure.Some? && Digest(read, step, s, stream).output != []
    ensures !SendsAlike(read, step, limit, s, stream)
  {
    var cut := CutBeforeFailure(read, step, s, stream);
    var a, b := stream[..cut], stream[cut..];
    assert a + b == stream;
    assert cut == |stream| ==> a == stream;
    assert a != [] && b != [];
    DigestInstalments(read, step, s, a, b);
    ServedInOne(read, step, limit, s, stream);
    ServedInTwo(read, step, limit, s, a, b);
    FlattenTwo(a, b);
    assert NoneEmpty([a, b]);
  }

  lemma ServedInOne<S, T(!new)>(read: Reader<T>, step: Machine<S, T>, limit: nat, s: S, stream: seq<u8>)
    requires |stream| <= limit && Digest(read, step, s, stream).failure.Some?
    ensures Serve(read, step, limit, s, [], [stream]).output == []
  {
    assert [] + stream == stream;
  }

  lemma ServedInTwo<S, T(!new)>(read: Reader<T>, step: Machine<S, T>, limit: nat, s: S, a: seq<u8>, b: seq<u8>)
    requires Digest(read, step, s, a).failure.None? && |a| + |b| <= limit
    requires var first := Digest(read, step, s, a);
             Digest(read, step, first.state, first.residue + b).failure.Some?
    ensures Serve(read, step, limit, s, [], [a, b]).output == Digest(read, step, s, a).output
  {
    var first := Digest(read, step, s, a);
    assert [] + a == a && [a, b][1..] == [b];
    ReadingShrinks(read, a);
    assert Serve(read, step, limit, first.state, first.residue, [b]).output == [];
    assert first.output + [] == first.output;
  }

  /**
   For streams of any length: two ways of cutting that both stay within the limit end in the same state
   with the same failure, and have sent the same if the stream does not fail or has nothing to send
   before it fails.
   */
  lemma CutsAgree<S, T(!new)>(
    read: Reader<T>, step: Machine<S, T>, limit: nat, s: S, chunks: seq<seq<u8>>, others: seq<seq<u8>>)
    requires Extensible(read) && read([]) == Wait && Flatten(chunks) == Flatten(others)
    requires Serve(read, step, limit, s, [], chunks).failure != Some(TooLong)
    requires Serve(read, step, limit, s, [], others).failure != Some(TooLong)
    ensures var one, other := Serve(read, step, limit, s, [], chunks), Serve(read, step, limit, s, [], others);
            var whole := Digest(read, step, s, Flatten(chunks));
            && one.state == other.state && one.failure == other.failure
            && (whole.failure.None? || whole.output == [] ==> one.output == other.output)
  {
    var stream := Flatten(chunks);
    assert [] + stream == stream;
    ServeAgrees(read, step, limit, s, [], chunks);
    ServeAgrees(read, step, limit, s, [], others);
  }
}

/** The reading end of a pipe, with the bytes that have not been read yet. */
module Pipes {
  import opened Wrappers
  import opened Bytes

  class Source {
    var bytes: seq<u8>

    constructor (bytes: seq<u8>)
      ensures this.bytes == bytes
    {
      this.bytes := bytes;
    }

    /** All of so many bytes, or nothing if the pipe closes before. */
    method ReadExact(count: nat) returns (r: Option<seq<u8>>)
      modifies this
      ensures r == if count <= |old(bytes)| then Some(old(bytes)[..count]) else None
      ensures bytes == if r.Some? then old(bytes)[count..] else old(bytes)
    {
      if count > |bytes| {
        return None;
      }
      r := Some(bytes[..count]);
      bytes := bytes[count..];
    }
  }
}
