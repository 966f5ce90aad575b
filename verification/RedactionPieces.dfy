/**
 Redaction works piece by piece: a delimiter that is not white space ends every value and every token, so
 what stands in front of it and what stands behind it are redacted independently.
 */
module RedactionPieces {
  import opened Wrappers
  import opened Characters
  import opened Redaction

  /** The characters that end a value, apart from white space. */
  predicate Delimits(c: char) {
    c == '"' || c == '\'' || c == ',' || c == ';' || c == '}' || c == ']'
  }

  ghost predicate Piece(x: string) {
    |x| > 0 && Delimits(x[|x| - 1])
  }

  // ---------------------------------------------------------------------------------------------
  // The first value of a key
  // ---------------------------------------------------------------------------------------------

  /** A bounded key with a value. */
  predicate HasValue(text: string, key: string, q: nat) {
    KeyAt(text, key, q) && ValueAfter(text, q + |key|).Some?
  }

  ghost predicate FirstValue(text: string, n: nat, key: string, q: nat, start: nat) {
    && n <= q && KeyAt(text, key, q) && ValueAfter(text, q + |key|) == Some(start)
    && forall p: nat :: n <= p < q ==> !HasValue(text, key, p)
  }

  ghost predicate NoValue(text: string, n: nat, to: nat, key: string) {
    forall p: nat :: n <= p < to ==> !HasValue(text, key, p)
  }

  lemma {:induction false} FirstValueIsFound(text: string, n: nat, key: string, q: nat, start: nat)
    requires IsKey(key) && n <= |text| && FirstValue(text, n, key, q, start)
    ensures FindValue(text, n, key) == Some(start)
    decreases |text| - n
  {
    FindKeyIsFirst(text, key, n);
    var at := FindKey(text, key, n).value;
    FindValueSteps(text, n, key, at);
    if at != q {
      BareKeyFirst(text, n, key, at, q, start);
      FirstValueIsFound(text, at + |key|, key, q, start);
    }
  }

  lemma BareKeyFirst(text: string, n: nat, key: string, at: nat, q: nat, start: nat)
    requires IsKey(key) && FirstKey(text, n, key, at) && FirstValue(text, n, key, q, start) && at != q
    ensures ValueAfter(text, at + |key|) == None && FirstValue(text, at + |key|, key, q, start)
  {
    assert at < q && !HasValue(text, key, at);
    if q < at + |key| {
      NoKeyInside(text, key, at, q);
    }
  }

  lemma {:induction false} NoValueIsFound(text: string, n: nat, key: string)
    requires |key| > 0 && n <= |text| && NoValue(text, n, |text|, key)
    ensures FindValue(text, n, key) == None
    decreases |text| - n
  {
    FindKeyIsFirst(text, key, n);
    var at := FindKey(text, key, n);
    if at.Some? {
      FindValueSteps(text, n, key, at.value);
      assert !HasValue(text, key, at.value);
      NoValueIsFound(text, at.value + |key|, key);
    }
  }

  /** The key of the value that is found. */
  lemma {:induction false} FoundIsFirstValue(text: string, n: nat, key: string, start: nat) returns (q: nat)
    requires IsKey(key) && n <= |text| && FindValue(text, n, key) == Some(start)
    ensures FirstValue(text, n, key, q, start)
    decreases |text| - n
  {
    FindKeyIsFirst(text, key, n);
    var at := FindKey(text, key, n).value;
    FindValueSteps(text, n, key, at);
    if ValueAfter(text, at + |key|).None? {
      q := FoundIsFirstValue(text, at + |key|, key, start);
      PastBareKey(text, n, key, at, q, start);
    } else {
      q := at;
      ValueAtOnce(text, n, key, at, start);
    }
  }

  lemma ValueAtOnce(text: string, n: nat, key: string, at: nat, start: nat)
    requires FirstKey(text, n, key, at) && ValueAfter(text, at + |key|) == Some(start)
    ensures FirstValue(text, n, key, at, start)
  {
  }

  lemma PastBareKey(text: string, n: nat, key: string, at: nat, q: nat, start: nat)
    requires IsKey(key) && FirstKey(text, n, key, at) && ValueAfter(text, at + |key|).None?
    requires FirstValue(text, at + |key|, key, q, start)
    ensures FirstValue(text, n, key, q, start)
  {
    forall p: nat | n <= p < q ensures !HasValue(text, key, p) {
      if at < p < at + |key| {
        NoKeyInside(text, key, at, p);
      }
    }
  }

  lemma {:induction false} NoneFoundIsNoValue(text: string, n: nat, key: string)
    requires IsKey(key) && n <= |text| && FindValue(text, n, key) == None
    ensures NoValue(text, n, |text|, key)
    decreases |text| - n
  {
    FindKeyIsFirst(text, key, n);
    var at := FindKey(text, key, n);
    if at.Some? {
      FindValueSteps(text, n, key, at.value);
      NoneFoundIsNoValue(text, at.value + |key|, key);
      forall p: nat | n <= p < |text| ensures !HasValue(text, key, p) {
        if at.value < p < at.value + |key| {
          NoKeyInside(text, key, at.value, p);
        }
      }
    }
  }

  ghost predicate Starts(text: string, n: nat, key: string, start: nat) {
    exists q: nat :: FirstValue(text, n, key, q, start)
  }

  /** The spans of a pass, said without the search that finds them. */
  ghost predicate ValueSpans(text: string, n: nat, key: string, spans: Spans)
    decreases spans
  {
    match spans
    case End => n <= |text| && NoValue(text, n, |text|, key)
    case Span(start, end, rest) =>
      && n < start <= |text| && Starts(text, n, key, start) && end == SkipWhile(text, start, InToken)
      && ValueSpans(text, end, key, rest)
  }

  lemma {:induction false} SpansAreFound(text: string, n: nat, key: string, spans: Spans)
    requires IsKey(key) && ValueSpans(text, n, key, spans)
    ensures FindValues(text, n, key) == spans
    decreases spans
  {
    match spans
    case End => NoValueIsFound(text, n, key);
    case Span(start, end, rest) =>
      var q: nat :| FirstValue(text, n, key, q, start);
      FirstValueIsFound(text, n, key, q, start);
      SpansAreFound(text, end, key, rest);
  }

  lemma {:induction false} FoundAreSpans(text: string, n: nat, key: string)
    requires IsKey(key) && n <= |text|
    ensures ValueSpans(text, n, key, FindValues(text, n, key))
    decreases |text| - n
  {
    match FindValue(text, n, key)
    case None => NoneFoundIsNoValue(text, n, key);
    case Some(start) =>
      var q := FoundIsFirstValue(text, n, key, start);
      FoundAreSpans(text, SkipWhile(text, start, InToken), key);
  }

  // ---------------------------------------------------------------------------------------------
  // In front of a cut
  // ---------------------------------------------------------------------------------------------

  lemma KeyInFront(x: string, b: string, key: string, q: nat)
    requires IsKey(key) && Piece(x) && q < |x|
    ensures KeyAt(x + b, key, q) <==> KeyAt(x, key, q)
    ensures KeyAt(x, key, q) ==> q + |key| < |x|
  {
    var t := x + b;
    assert forall k :: 0 <= k < |x| ==> t[k] == x[k];
    if MatchesAt(t, key, q) {
      WordCharOfMatch(t, key, q);
      assert !(q <= |x| - 1 < q + |key|);
    }
    if MatchesAt(x, key, q) {
      WordCharOfMatch(x, key, q);
    }
  }

  lemma SkipInFront(x: string, b: string, from: nat, p: char -> bool)
    requires Piece(x) && from < |x| && !p(x[|x| - 1])
    ensures SkipWhile(x + b, from, p) == SkipWhile(x, from, p) < |x|
  {
    var t := x + b;
    assert forall k :: 0 <= k < |x| ==> t[k] == x[k];
    var r := SkipWhile(x, from, p);
    SkipRun(x, from, p);
    assert forall i :: from <= i < r ==> p(x[i]) && i < |x| - 1;
    SkipUnique(t, from, p, r);
  }

  lemma ValueInFront(x: string, b: string, keyEnd: nat)
    requires Piece(x) && keyEnd < |x|
    ensures ValueAfter(x + b, keyEnd) == ValueAfter(x, keyEnd)
    ensures ValueAfter(x, keyEnd).Some? ==> ValueAfter(x, keyEnd).value < |x|
  {
    SkipInFront(x, b, keyEnd, IsAsciiSpace);
    var s := SkipWhile(x, keyEnd, IsAsciiSpace);
    assert (x + b)[s] == x[s];
    if IsSeparator(x[s]) {
      SkipInFront(x, b, s + 1, IsSpace);
    }
  }

  lemma ValuesInFront(x: string, b: string, key: string, q: nat)
    requires IsKey(key) && Piece(x) && q < |x|
    ensures HasValue(x + b, key, q) <==> HasValue(x, key, q)
    ensures HasValue(x, key, q) ==> q + |key| < |x| && ValueAfter(x + b, q + |key|) == ValueAfter(x, q + |key|)
  {
    KeyInFront(x, b, key, q);
    if KeyAt(x, key, q) {
      ValueInFront(x, b, q + |key|);
    }
  }

  // ---------------------------------------------------------------------------------------------
  // Behind a cut
  // ---------------------------------------------------------------------------------------------

  /** The end of a text, behind a character that no key straddles. */
  ghost predicate Behind(t: string, m: nat, b: string) {
    0 < m <= |t| && t[m..] == b && !IsWordChar(t[m - 1])
  }

  lemma BehindPiece(x: string, b: string)
    requires |x| > 0 && !IsWordChar(x[|x| - 1])
    ensures Behind(x + b, |x|, b)
  {
  }

  lemma KeyBehind(t: string, m: nat, b: string, key: string, d: nat)
    requires IsKey(key) && Behind(t, m, b)
    ensures KeyAt(t, key, m + d) <==> KeyAt(b, key, d)
  {
    assert b[0..] == b;
    if d > 0 {
      KeyShifted(t, m, b, 0, key, d);
    } else {
      MatchShifted(t, m, b, 0, key, 0);
      assert |key| < |b| ==> t[m + |key|] == b[|key|];
    }
  }

  lemma ValueBehind(t: string, m: nat, b: string, keyEnd: nat)
    requires m <= |t| && t[m..] == b && keyEnd <= |b|
    ensures ValueAfter(t, m + keyEnd) == match ValueAfter(b, keyEnd)
                                         case None => None
                                         case Some(start) => Some(m + start)
  {
    assert t[m + keyEnd..] == b[keyEnd..];
    ValueShifted(t, m + keyEnd, b, keyEnd);
  }

  lemma ValuesBehind(t: string, m: nat, b: string, key: string, d: nat)
    requires IsKey(key) && Behind(t, m, b)
    ensures HasValue(t, key, m + d) <==> HasValue(b, key, d)
    ensures HasValue(b, key, d) ==>
              ValueAfter(t, m + d + |key|) == Some(m + ValueAfter(b, d + |key|).value)
  {
    KeyBehind(t, m, b, key, d);
    if KeyAt(b, key, d) {
      ValueBehind(t, m, b, d + |key|);
    }
  }

  lemma TokenBehind(t: string, m: nat, b: string, start: nat)
    requires m <= |t| && t[m..] == b && start <= |b|
    ensures SkipWhile(t, m + start, InToken) == m + SkipWhile(b, start, InToken)
  {
    assert t[m + start..] == b[start..];
    SkipShifted(t, m + start, b, start, InToken);
  }

  lemma FirstValueBehind(t: string, m: nat, b: string, key: string, d: nat, q: nat, start: nat)
    requires IsKey(key) && Behind(t, m, b) && FirstValue(b, d, key, q, start)
    ensures FirstValue(t, m + d, key, m + q, m + start)
  {
    assert HasValue(b, key, q);
    ValuesBehind(t, m, b, key, q);
    forall p: nat | m + d <= p < m + q ensures !HasValue(t, key, p) {
      ValuesBehind(t, m, b, key, p - m);
    }
  }

  lemma {:induction false} ValueSpansBehind(t: string, m: nat, b: string, key: string, d: nat, spans: Spans)
    requires IsKey(key) && Behind(t, m, b) && ValueSpans(b, d, key, spans)
    ensures ValueSpans(t, m + d, key, Shift(spans, m))
    decreases spans
  {
    match spans
    case End => NoValueBehind(t, m, b, key, d);
    case Span(start, end, rest) =>
      ValueSpansBehind(t, m, b, key, end, rest);
      FirstSpanBehind(t, m, b, key, d, start, end, Shift(rest, m), Shift(spans, m));
  }

  lemma FirstSpanBehind(
    t: string, m: nat, b: string, key: string, d: nat, start: nat, end: nat, rest: Spans, spans: Spans)
    requires IsKey(key) && Behind(t, m, b) && d < start <= |b|
    requires Starts(b, d, key, start) && end == SkipWhile(b, start, InToken)
    requires spans == Span(m + start, m + end, rest) && ValueSpans(t, m + end, key, rest)
    ensures ValueSpans(t, m + d, key, spans)
  {
    StartsBehind(t, m, b, key, d, start);
    TokenBehind(t, m, b, start);
  }

  lemma StartsBehind(t: string, m: nat, b: string, key: string, d: nat, start: nat)
    requires IsKey(key) && Behind(t, m, b) && Starts(b, d, key, start)
    ensures Starts(t, m + d, key, m + start)
  {
    var q: nat :| FirstValue(b, d, key, q, start);
    FirstValueBehind(t, m, b, key, d, q, start);
  }

  lemma NoValueBehind(t: string, m: nat, b: string, key: string, d: nat)
    requires IsKey(key) && Behind(t, m, b) && NoValue(b, d, |b|, key)
    ensures NoValue(t, m + d, |t|, key)
  {
    forall p: nat | m + d <= p < |t| ensures !HasValue(t, key, p) {
      ValuesBehind(t, m, b, key, p - m);
    }
  }

  // ---------------------------------------------------------------------------------------------
  // Spans of a text that is put together from two
  // ---------------------------------------------------------------------------------------------

  function Shift(spans: Spans, m: nat): Spans {
    match spans
    case End => End
    case Span(start, end, rest) => Span(m + start, m + end, Shift(rest, m))
  }

  function Then(spans: Spans, later: Spans): Spans {
    match spans
    case End => later
    case Span(start, end, rest) => Span(start, end, Then(rest, later))
  }

  lemma {:induction false} RenderShifted(x: string, b: string, d: nat, spans: Spans, mark: string)
    requires Within(b, d, spans)
    ensures Within(x + b, |x| + d, Shift(spans, |x|))
    ensures Render(x + b, |x| + d, Shift(spans, |x|), mark) == Render(b, d, spans, mark)
    decreases spans
  {
    match spans
    case End =>
      assert (x + b)[|x| + d..] == b[d..];
    case Span(start, end, rest) =>
      RenderShifted(x, b, end, rest, mark);
      assert (x + b)[|x| + d..|x| + start] == b[d..start];
  }

  lemma RenderFirst(x: string, b: string, n: nat, spans: Spans, mark: string)
    requires n <= |x| && Within(b, 0, spans)
    ensures Within(x + b, n, Shift(spans, |x|))
    ensures Render(x + b, n, Shift(spans, |x|), mark) == x[n..] + Render(b, 0, spans, mark)
  {
    RenderShifted(x, b, 0, spans, mark);
    RenderEarlier(x + b, n, |x|, Shift(spans, |x|), mark);
    assert (x + b)[n..|x|] == x[n..];
  }

  /** Each text is rendered with its own spans. */
  lemma {:induction false} RenderJoined(x: string, b: string, n: nat, spans: Spans, later: Spans, mark: string)
    requires Within(x, n, spans) && Within(b, 0, later)
    ensures Within(x + b, n, Then(spans, Shift(later, |x|)))
    ensures Render(x + b, n, Then(spans, Shift(later, |x|)), mark)
         == Render(x, n, spans, mark) + Render(b, 0, later, mark)
    decreases spans
  {
    match spans
    case End => RenderFirst(x, b, n, later, mark);
    case Span(start, end, rest) =>
      RenderJoined(x, b, end, rest, later, mark);
      assert (x + b)[n..start] == x[n..start];
      Regroup(x[n..start] + mark, Render(x, end, rest, mark), Render(b, 0, later, mark));
  }

  /** A piece keeps its delimiter when the spans end in front of it. */
  lemma RenderedPiece(x: string, spans: Spans, mark: string)
    requires Piece(x) && Within(x[..|x| - 1], 0, spans) && Within(x, 0, spans)
    ensures Piece(Render(x, 0, spans, mark))
  {
    var front, c := x[..|x| - 1], x[|x| - 1];
    assert x == front + [c];
    RenderJoined(front, [c], 0, spans, End, mark);
    ThenEnd(spans);
    assert Render([c], 0, End, mark) == [c];
  }

  lemma {:induction false} ThenEnd(spans: Spans)
    ensures Then(spans, End) == spans
  {
    match spans
    case End =>
    case Span(_, _, rest) => ThenEnd(rest);
  }

  // ---------------------------------------------------------------------------------------------
  // The key passes split at a delimiter
  // ---------------------------------------------------------------------------------------------

  lemma {:induction false} ValueSpansSplit(x: string, b: string, key: string, n: nat, spans: Spans, later: Spans)
    requires IsKey(key) && Piece(x) && n < |x| && ValueSpans(x, n, key, spans) && ValueSpans(b, 0, key, later)
    ensures ValueSpans(x + b, n, key, Then(spans, Shift(later, |x|)))
    ensures Within(x[..|x| - 1], n, spans)
    decreases spans
  {
    match spans
    case End =>
      NoValueInFront(x, b, key, n);
      BehindPiece(x, b);
      ValueSpansBehind(x + b, |x|, b, key, 0, later);
      SpansSkip(x + b, n, |x|, key, Shift(later, |x|));
    case Span(start, end, rest) =>
      var q: nat :| FirstValue(x, n, key, q, start);
      FirstValueInFront(x, b, key, n, q, start);
      SkipInFront(x, b, start, InToken);
      ValueSpansSplit(x, b, key, end, rest, later);
  }

  /** Without values in front of a cut, the spans are those behind it. */
  lemma SpansSkip(text: string, n: nat, k: nat, key: string, spans: Spans)
    requires n <= k && NoValue(text, n, k, key) && ValueSpans(text, k, key, spans)
    ensures ValueSpans(text, n, key, spans)
  {
    if spans.Span? {
      var q: nat :| FirstValue(text, k, key, q, spans.start);
      assert FirstValue(text, n, key, q, spans.start);
    }
  }

  lemma NoValueInFront(x: string, b: string, key: string, n: nat)
    requires IsKey(key) && Piece(x) && NoValue(x, n, |x|, key)
    ensures NoValue(x + b, n, |x|, key)
  {
    forall p: nat | n <= p < |x| ensures !HasValue(x + b, key, p) {
      ValuesInFront(x, b, key, p);
    }
  }

  lemma FirstValueInFront(x: string, b: string, key: string, n: nat, q: nat, start: nat)
    requires IsKey(key) && Piece(x) && n < |x| && FirstValue(x, n, key, q, start)
    ensures start < |x| && FirstValue(x + b, n, key, q, start)
  {
    assert HasValue(x, key, q);
    KeyInFront(x, b, key, q);
    ValueInFront(x, b, q + |key|);
    forall p: nat | n <= p < q ensures !HasValue(x + b, key, p) {
      ValuesInFront(x, b, key, p);
    }
  }

  lemma KeyPassSplits(x: string, b: string, key: string)
    requires IsKey(key) && Piece(x)
    ensures MaskAssignments(x + b, key) == MaskAssignments(x, key) + MaskAssignments(b, key)
    ensures Piece(MaskAssignments(x, key))
  {
    var spans, later := FindValues(x, 0, key), FindValues(b, 0, key);
    FoundAreSpans(x, 0, key);
    FoundAreSpans(b, 0, key);
    ValueSpansSplit(x, b, key, 0, spans, later);
    SpansAreFound(x + b, 0, key, Then(spans, Shift(later, |x|)));
    ValuesWithin(x, 0, key);
    ValuesWithin(b, 0, key);
    RenderJoined(x, b, 0, spans, later, MASK);
    RenderedPiece(x, spans, MASK);
  }

  /** Where no key of the front has a value, the pass only works behind the cut. */
  lemma PassBehind(front: string, b: string, key: string)
    requires IsKey(key) && Behind(front + b, |front|, b) && NoValue(front + b, 0, |front|, key)
    ensures MaskAssignments(front + b, key) == front + MaskAssignments(b, key)
  {
    var t, spans := front + b, FindValues(b, 0, key);
    FoundAreSpans(b, 0, key);
    ValueSpansBehind(t, |front|, b, key, 0, spans);
    SpansSkip(t, 0, |front|, key, Shift(spans, |front|));
    SpansAreFound(t, 0, key, Shift(spans, |front|));
    ValuesWithin(b, 0, key);
    RenderFirst(front, b, 0, spans, MASK);
    assert front[0..] == front;
  }

  lemma {:induction false} KeyPassesSplit(x: string, b: string, keys: seq<string>)
    requires AreKeys(keys) && Piece(x)
    ensures MaskKeys(x + b, keys) == MaskKeys(x, keys) + MaskKeys(b, keys) && Piece(MaskKeys(x, keys))
    decreases |keys|
  {
    if keys != [] {
      KeyPassSplits(x, b, keys[0]);
      KeyPassesSplit(MaskAssignments(x, keys[0]), MaskAssignments(b, keys[0]), keys[1..]);
    }
  }

  // ---------------------------------------------------------------------------------------------
  // The bearer pass splits at a delimiter
  // ---------------------------------------------------------------------------------------------

  lemma MarkerInFront(x: string, b: string, q: nat)
    requires Piece(x) && q < |x|
    ensures MatchesAt(x + b, BEARER, q) <==> MatchesAt(x, BEARER, q)
    ensures MatchesAt(x, BEARER, q) ==> q + 7 < |x|
  {
    var t := x + b;
    assert forall k :: 0 <= k < |x| ==> t[k] == x[k];
    if MatchesAt(t, BEARER, q) {
      NoDelimiterInMarker(t, q);
    }
    if MatchesAt(x, BEARER, q) {
      NoDelimiterInMarker(x, q);
    }
  }

  lemma NoDelimiterInMarker(text: string, q: nat)
    requires MatchesAt(text, BEARER, q)
    ensures forall k :: q <= k < q + 7 ==> !Delimits(text[k])
  {
    forall k | q <= k < q + 7 ensures !Delimits(text[k]) {
      assert Lower(text[q + (k - q)]) == Lower(BEARER[k - q]);
      assert !Delimits(Lower(BEARER[k - q]));
    }
  }

  lemma FirstMarkerInFront(x: string, b: string, n: nat, at: nat)
    requires Piece(x) && n < |x| && FirstMatch(x, n, BEARER, at)
    ensures at + 7 < |x| && FirstMatch(x + b, n, BEARER, at)
  {
    MarkerInFront(x, b, at);
    forall q: nat | n <= q < at ensures !MatchesAt(x + b, BEARER, q) {
      MarkerInFront(x, b, q);
    }
  }

  ghost predicate NoMarker(text: string, n: nat, to: nat) {
    forall q: nat :: n <= q < to ==> !MatchesAt(text, BEARER, q)
  }

  /** The spans of the bearer pass, said without the search that finds them. */
  ghost predicate MarkerSpans(text: string, n: nat, spans: Spans)
    decreases spans
  {
    match spans
    case End => n <= |text| && NoMarker(text, n, |text|)
    case Span(at, end, rest) =>
      && at + 7 <= |text| && FirstMatch(text, n, BEARER, at) && end == SkipWhile(text, at + 7, InToken)
      && MarkerSpans(text, end, rest)
  }

  lemma {:induction false} MarkersAreFound(text: string, n: nat, spans: Spans)
    requires n <= |text| && MarkerSpans(text, n, spans)
    ensures FindBearers(text, n) == spans
    decreases spans
  {
    FindFromIsFirst(text, BEARER, n);
    match spans
    case End =>
    case Span(at, end, rest) =>
      assert FindFrom(text, BEARER, n) == Some(at);
      MarkersAreFound(text, end, rest);
  }

  lemma {:induction false} FoundAreMarkers(text: string, n: nat)
    requires n <= |text|
    ensures MarkerSpans(text, n, FindBearers(text, n))
    decreases |text| - n
  {
    FindFromIsFirst(text, BEARER, n);
    match FindFrom(text, BEARER, n)
    case None =>
    case Some(at) =>
      var end := SkipWhile(text, at + 7, InToken);
      FoundAreMarkers(text, end);
      assert FindBearers(text, n) == Span(at, end, FindBearers(text, end));
  }

  lemma {:induction false} MarkerSpansBehind(t: string, m: nat, b: string, d: nat, spans: Spans)
    requires m <= |t| && t[m..] == b && MarkerSpans(b, d, spans)
    ensures MarkerSpans(t, m + d, Shift(spans, m))
    decreases spans
  {
    match spans
    case End =>
      forall q: nat | m + d <= q < |t| ensures !MatchesAt(t, BEARER, q) {
        MarkerBehind(t, m, b, q - m);
      }
    case Span(at, end, rest) =>
      FirstMarkerBehind(t, m, b, d, at);
      TokenBehind(t, m, b, at + 7);
      MarkerSpansBehind(t, m, b, end, rest);
  }

  lemma FirstMarkerBehind(t: string, m: nat, b: string, d: nat, at: nat)
    requires m <= |t| && t[m..] == b && FirstMatch(b, d, BEARER, at)
    ensures FirstMatch(t, m + d, BEARER, m + at)
  {
    MarkerBehind(t, m, b, at);
    forall q: nat | m + d <= q < m + at ensures !MatchesAt(t, BEARER, q) {
      MarkerBehind(t, m, b, q - m);
    }
  }

  lemma MarkerBehind(t: string, m: nat, b: string, q: nat)
    requires m <= |t| && t[m..] == b
    ensures MatchesAt(t, BEARER, m + q) <==> MatchesAt(b, BEARER, q)
  {
    assert b[0..] == b;
    MatchShifted(t, m, b, 0, BEARER, q);
  }

  /** Without markers in front of a cut, the spans are those behind it. */
  lemma MarkersSkip(text: string, n: nat, k: nat, spans: Spans)
    requires n <= k && NoMarker(text, n, k) && MarkerSpans(text, k, spans)
    ensures MarkerSpans(text, n, spans)
  {
  }

  lemma NoMarkerInFront(x: string, b: string, n: nat)
    requires Piece(x) && NoMarker(x, n, |x|)
    ensures NoMarker(x + b, n, |x|)
  {
    forall q: nat | n <= q < |x| ensures !MatchesAt(x + b, BEARER, q) {
      MarkerInFront(x, b, q);
    }
  }

  lemma {:induction false} MarkerSpansSplit(x: string, b: string, n: nat, spans: Spans, later: Spans)
    requires Piece(x) && n < |x| && MarkerSpans(x, n, spans) && MarkerSpans(b, 0, later)
    ensures MarkerSpans(x + b, n, Then(spans, Shift(later, |x|)))
    ensures Within(x[..|x| - 1], n, spans)
    decreases spans
  {
    match spans
    case End =>
      NoMarkerInFront(x, b, n);
      BehindPiece(x, b);
      MarkerSpansBehind(x + b, |x|, b, 0, later);
      MarkersSkip(x + b, n, |x|, Shift(later, |x|));
    case Span(at, end, rest) =>
      FirstMarkerInFront(x, b, n, at);
      SkipInFront(x, b, at + 7, InToken);
      MarkerSpansSplit(x, b, end, rest, later);
  }

  lemma BearerPassSplits(x: string, b: string)
    requires Piece(x)
    ensures MaskBearers(x + b) == MaskBearers(x) + MaskBearers(b) && Piece(MaskBearers(x))
  {
    var spans, later := FindBearers(x, 0), FindBearers(b, 0);
    FoundAreMarkers(x, 0);
    FoundAreMarkers(b, 0);
    MarkerSpansSplit(x, b, 0, spans, later);
    MarkersAreFound(x + b, 0, Then(spans, Shift(later, |x|)));
    BearersWithin(x, 0);
    BearersWithin(b, 0);
    RenderJoined(x, b, 0, spans, later, MASKED_BEARER);
    RenderedPiece(x, spans, MASKED_BEARER);
  }

  /**
   A text is redacted piece by piece: what a delimiter ends, the delimiter included, and what follows it
   do not influence each other.
   */
  lemma RedactTextSplits(front: string, c: char, behind: string)
    requires c in {'"', '\'', ',', ';', '}', ']'}
    ensures RedactText(front + [c] + behind) == RedactText(front + [c]) + RedactText(behind)
  {
    var x := front + [c];
    KeysAreKeys();
    BearerPassSplits(x, behind);
    KeyPassesSplit(MaskBearers(x), MaskBearers(behind), KEYS);
  }
}
