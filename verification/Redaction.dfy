/**
 Redaction of bearer tokens and of key assignments in diagnostic text. Text is a sequence of
 characters; the needles are ASCII, so byte and character positions select the same pieces.
 */
module Redaction {
  import opened Wrappers
  import opened Characters

  const MASK: string := "<redacted>"
  const BEARER: string := "bearer "
  const MASKED_BEARER: string := "Bearer <redacted>"

  /** The keys in the order the passes run. */
  const KEYS: seq<string> := [
    "authorization", "bearer_token", "access_token", "refresh_token", "password", "client_secret",
    "secret_path", "secret", "private_key", "signing_key", "api_key"]

  // ---------------------------------------------------------------------------------------------
  // Characters and case-insensitive search
  // ---------------------------------------------------------------------------------------------

  /** The Unicode White_Space property. */
  predicate IsSpace(c: char) {
    var n := c as int;
    || 9 <= n <= 13 || n == 0x20 || n == 0x85 || n == 0xA0 || n == 0x1680 || 0x2000 <= n <= 0x200A
    || n == 0x2028 || n == 0x2029 || n == 0x202F || n == 0x205F || n == 0x3000
  }

  /** ASCII whitespace leaves out the vertical tab. */
  predicate IsAsciiSpace(c: char) {
    var n := c as int;
    n == 9 || n == 10 || n == 12 || n == 13 || n == 0x20
  }

  predicate IsWordChar(c: char) {
    'a' <= c <= 'z' || 'A' <= c <= 'Z' || '0' <= c <= '9' || c == '_'
  }

  predicate IsTerminator(c: char) {
    IsSpace(c) || c == '"' || c == '\'' || c == ',' || c == ';' || c == '}' || c == ']'
  }

  predicate InToken(c: char) {
    !IsTerminator(c)
  }

  predicate IsSeparator(c: char) {
    c == ':' || c == '='
  }

  predicate MatchesAt(text: string, needle: string, at: nat) {
    at + |needle| <= |text| && forall i :: 0 <= i < |needle| ==> Lower(text[at + i]) == Lower(needle[i])
  }

  /** The first case-insensitive occurrence at or after a position. */
  function FindFrom(text: string, needle: string, from: nat): (r: Option<nat>)
    ensures r.Some? ==> from <= r.value && r.value + |needle| <= |text|
    decreases |text| - from
  {
    if from + |needle| > |text| then None
    else if MatchesAt(text, needle, from) then Some(from)
    else if from < |text| then FindFrom(text, needle, from + 1)
    else None
  }

  ghost predicate FirstMatch(text: string, n: nat, needle: string, at: nat) {
    && n <= at && MatchesAt(text, needle, at)
    && forall q: nat :: n <= q < at ==> !MatchesAt(text, needle, q)
  }

  lemma {:induction false} FindFromIsFirst(text: string, needle: string, from: nat)
    ensures var r := FindFrom(text, needle, from);
            && (r.Some? ==> FirstMatch(text, from, needle, r.value))
            && (r.None? ==> forall q: nat :: from <= q ==> !MatchesAt(text, needle, q))
    decreases |text| - from
  {
    if from + |needle| <= |text| && !MatchesAt(text, needle, from) && from < |text| {
      FindFromIsFirst(text, needle, from + 1);
    }
  }

  /** The end of the run of characters with a property that starts at a position. */
  function SkipWhile(text: string, from: nat, p: char -> bool): (r: nat)
    requires from <= |text|
    ensures from <= r <= |text|
    decreases |text| - from
  {
    if from < |text| && p(text[from]) then SkipWhile(text, from + 1, p) else from
  }

  lemma {:induction false} SkipRun(text: string, from: nat, p: char -> bool)
    requires from <= |text|
    ensures forall i :: from <= i < SkipWhile(text, from, p) ==> p(text[i])
    ensures SkipWhile(text, from, p) < |text| ==> !p(text[SkipWhile(text, from, p)])
    decreases |text| - from
  {
    if from < |text| && p(text[from]) {
      SkipRun(text, from + 1, p);
    }
  }

  // ---------------------------------------------------------------------------------------------
  // The passes
  // ---------------------------------------------------------------------------------------------

  /** A key with no word character on either side. */
  predicate KeyAt(text: string, key: string, at: nat) {
    && MatchesAt(text, key, at)
    && (at == 0 || !IsWordChar(text[at - 1]))
    && (at + |key| == |text| || !IsWordChar(text[at + |key|]))
  }

  ghost predicate FirstKey(text: string, n: nat, key: string, at: nat) {
    && n <= at && KeyAt(text, key, at)
    && forall q: nat :: n <= q < at ==> !KeyAt(text, key, q)
  }

  /** The first bounded key at or after a position. */
  function FindKey(text: string, key: string, from: nat): (r: Option<nat>)
    ensures r.Some? ==> from <= r.value && r.value + |key| <= |text|
    decreases |text| - from
  {
    if from + |key| > |text| then None
    else if KeyAt(text, key, from) then Some(from)
    else if from < |text| then FindKey(text, key, from + 1)
    else None
  }

  lemma {:induction false} FindKeyIsFirst(text: string, key: string, from: nat)
    ensures var r := FindKey(text, key, from);
            && (r.Some? ==> FirstKey(text, from, key, r.value))
            && (r.None? ==> forall q: nat :: from <= q ==> !KeyAt(text, key, q))
    decreases |text| - from
  {
    if from + |key| <= |text| && !KeyAt(text, key, from) && from < |text| {
      FindKeyIsFirst(text, key, from + 1);
    }
  }

  /** Where the separator after a key stands; None when the key is followed by neither ':' nor '='. */
  function SeparatorAfter(text: string, keyEnd: nat): (r: Option<nat>)
    requires keyEnd <= |text|
    ensures r.Some? ==> keyEnd <= r.value < |text|
  {
    var s := SkipWhile(text, keyEnd, IsAsciiSpace);
    if s < |text| && IsSeparator(text[s]) then Some(s) else None
  }

  /** Where the value assigned after a key starts. */
  function ValueAfter(text: string, keyEnd: nat): (r: Option<nat>)
    requires keyEnd <= |text|
    ensures r.Some? ==> keyEnd < r.value <= |text|
  {
    match SeparatorAfter(text, keyEnd)
    case None => None
    case Some(s) => Some(SkipWhile(text, s + 1, IsSpace))
  }

  /** Disjoint stretches of a text, from left to right. */
  datatype Spans = End | Span(start: nat, end: nat, rest: Spans)

  /** Where the first value assigned to a key behind a position starts; keys without one are passed over. */
  function FindValue(text: string, n: nat, key: string): (r: Option<nat>)
    requires n <= |text| && |key| > 0
    ensures r.Some? ==> n < r.value <= |text|
    decreases |text| - n
  {
    match FindKey(text, key, n)
    case None => None
    case Some(at) =>
      match ValueAfter(text, at + |key|)
      case None => FindValue(text, at + |key|, key)
      case Some(start) => Some(start)
  }

  /** The values assigned to a key behind a position, each from its start to its terminator. */
  function FindValues(text: string, n: nat, key: string): Spans
    requires n <= |text| && |key| > 0
    decreases |text| - n
  {
    match FindValue(text, n, key)
    case None => End
    case Some(start) =>
      var end := SkipWhile(text, start, InToken);
      Span(start, end, FindValues(text, end, key))
  }

  ghost predicate Within(text: string, n: nat, spans: Spans)
    decreases spans
  {
    match spans
    case End => n <= |text|
    case Span(start, end, rest) => n <= start <= end <= |text| && Within(text, end, rest)
  }

  /** The text behind a position with each span replaced by a mark. */
  function Render(text: string, n: nat, spans: Spans, mark: string): string
    requires Within(text, n, spans)
    decreases spans
  {
    match spans
    case End => text[n..]
    case Span(start, end, rest) => text[n..start] + mark + Render(text, end, rest, mark)
  }

  /** The bearer markers behind a position, each with the token that follows it. */
  function FindBearers(text: string, n: nat): Spans
    requires n <= |text|
    decreases |text| - n
  {
    match FindFrom(text, BEARER, n)
    case None => End
    case Some(at) =>
      var end := SkipWhile(text, at + 7, InToken);
      Span(at, end, FindBearers(text, end))
  }

  lemma {:induction false} BearersWithin(text: string, n: nat)
    requires n <= |text|
    ensures Within(text, n, FindBearers(text, n))
    decreases |text| - n
  {
    match FindFrom(text, BEARER, n)
    case None =>
    case Some(at) => BearersWithin(text, SkipWhile(text, at + 7, InToken));
  }

  /** The first pass: what follows every "bearer " is masked. */
  function MaskBearers(text: string): string {
    BearersWithin(text, 0);
    Render(text, 0, FindBearers(text, 0), MASKED_BEARER)
  }

  lemma {:induction false} ValuesWithin(text: string, n: nat, key: string)
    requires n <= |text| && |key| > 0
    ensures Within(text, n, FindValues(text, n, key))
    decreases |text| - n
  {
    match FindValue(text, n, key)
    case None =>
    case Some(start) => ValuesWithin(text, SkipWhile(text, start, InToken), key);
  }

  /** The pass for a key: every value assigned to it is masked. */
  function MaskAssignments(text: string, key: string): string
    requires |key| > 0
  {
    ValuesWithin(text, 0, key);
    Render(text, 0, FindValues(text, 0, key), MASK)
  }

  predicate NonEmpty(keys: seq<string>) {
    forall i :: 0 <= i < |keys| ==> |keys[i]| > 0
  }

  function MaskKeys(text: string, keys: seq<string>): string
    requires NonEmpty(keys)
    decreases |keys|
  {
    if keys == [] then text else MaskKeys(MaskAssignments(text, keys[0]), keys[1..])
  }

  function RedactText(text: string): string {
    MaskKeys(MaskBearers(text), KEYS)
  }

  // ---------------------------------------------------------------------------------------------
  // What redacted text looks like
  // ---------------------------------------------------------------------------------------------

  /** The mask stands at a position and is followed by a terminator or the end of the text. */
  predicate MaskAt(text: string, at: nat) {
    && at + |MASK| <= |text| && text[at..at + |MASK|] == MASK
    && (at + |MASK| == |text| || IsTerminator(text[at + |MASK|]))
  }

  /** Every key that starts before a bound and is followed by a separator has a masked value. */
  ghost predicate KeysMasked(text: string, key: string, bound: nat) {
    forall p: nat :: p < bound && KeyAt(text, key, p) ==> AssignmentMasked(text, p + |key|)
  }

  predicate AssignmentMasked(text: string, keyEnd: nat)
    requires keyEnd <= |text|
  {
    match ValueAfter(text, keyEnd)
    case None => true
    case Some(start) => MaskAt(text, start)
  }

  ghost predicate BearersMasked(text: string, bound: nat) {
    forall p: nat :: p < bound && MatchesAt(text, BEARER, p) ==> BearerMasked(text, p)
  }

  predicate BearerMasked(text: string, at: nat) {
    at + 7 <= |text| && text[at..at + 7] == "Bearer " && MaskAt(text, at + 7)
  }

  /** The markers and the assignments to each of some keys are masked. */
  ghost predicate MaskedFor(text: string, keys: seq<string>) {
    && BearersMasked(text, |text|)
    && forall i :: 0 <= i < |keys| ==> KeysMasked(text, keys[i], |text|)
  }

  /** Nothing left to redact. */
  ghost predicate Redacted(text: string) {
    MaskedFor(text, KEYS)
  }

  /** A key the masking of other values cannot disturb: word characters only, and not part of the mask. */
  ghost predicate IsKey(key: string) {
    && |key| > 0 && (forall c <- key :: IsWordChar(c))
    && forall p: nat :: !MatchesAt(MASK, key, p)
  }

  ghost predicate AreKeys(keys: seq<string>) {
    && NonEmpty(keys)
    && forall i :: 0 <= i < |keys| ==> IsKey(keys[i])
  }

  lemma KeysAreWords()
    ensures forall i :: 0 <= i < |KEYS| ==> |KEYS[i]| > 0 && forall c <- KEYS[i] :: IsWordChar(c)
  {
  }

  lemma KeysAvoidMask()
    ensures forall i :: 0 <= i < |KEYS| ==> forall p: nat :: !MatchesAt(MASK, KEYS[i], p)
  {
    forall i, p: nat | 0 <= i < |KEYS| ensures !MatchesAt(MASK, KEYS[i], p) {
      if p + |KEYS[i]| <= |MASK| {
        assert Lower(MASK[p + 0]) != Lower(KEYS[i][0]);
      }
    }
  }

  lemma KeysAreKeys()
    ensures AreKeys(KEYS)
  {
    KeysAreWords();
    KeysAvoidMask();
  }

  // ---------------------------------------------------------------------------------------------
  // Runs of characters
  // ---------------------------------------------------------------------------------------------

  lemma {:induction false} SkipUnique(text: string, from: nat, p: char -> bool, r: nat)
    requires from <= r <= |text|
    requires forall i :: from <= i < r ==> p(text[i])
    requires r < |text| ==> !p(text[r])
    ensures SkipWhile(text, from, p) == r
    decreases r - from
  {
    if from < r {
      SkipUnique(text, from + 1, p, r);
    }
  }

  lemma SkipShifted(a: string, x: nat, b: string, y: nat, p: char -> bool)
    requires x <= |a| && y <= |b| && a[x..] == b[y..]
    ensures SkipWhile(a, x, p) - x == SkipWhile(b, y, p) - y
  {
    var r := SkipWhile(a, x, p) - x;
    SkipRun(a, x, p);
    assert forall i :: y <= i < |b| ==> b[i] == b[y..][i - y] && a[x..][i - y] == a[i - y + x];
    SkipUnique(b, y, p, y + r);
  }

  lemma Deeper(a: string, x: nat, b: string, y: nat, d: nat)
    requires x <= |a| && y <= |b| && a[x..] == b[y..] && d <= |a| - x
    ensures y + d <= |b| && a[x + d..] == b[y + d..]
    ensures |a| - x == |b| - y
    ensures x + d < |a| ==> a[x + d] == b[y + d]
  {
    assert a[x + d..] == a[x..][d..] && b[y + d..] == b[y..][d..];
    assert x + d < |a| ==> a[x + d] == a[x..][d] && b[y + d] == b[y..][d];
  }

  lemma SeparatorShifted(a: string, x: nat, b: string, y: nat)
    requires x <= |a| && y <= |b| && a[x..] == b[y..]
    ensures SeparatorAfter(a, x).Some? <==> SeparatorAfter(b, y).Some?
    ensures SeparatorAfter(a, x).Some? ==> SeparatorAfter(a, x).value - x == SeparatorAfter(b, y).value - y
  {
    SkipShifted(a, x, b, y, IsAsciiSpace);
    Deeper(a, x, b, y, SkipWhile(a, x, IsAsciiSpace) - x);
  }

  lemma ValueShifted(a: string, x: nat, b: string, y: nat)
    requires x <= |a| && y <= |b| && a[x..] == b[y..]
    ensures ValueAfter(a, x).Some? <==> ValueAfter(b, y).Some?
    ensures ValueAfter(a, x).Some? ==> ValueAfter(a, x).value - x == ValueAfter(b, y).value - y
  {
    SeparatorShifted(a, x, b, y);
    if SeparatorAfter(a, x).Some? {
      var d := SeparatorAfter(a, x).value + 1 - x;
      Deeper(a, x, b, y, d);
      SkipShifted(a, x + d, b, y + d, IsSpace);
    }
  }

  lemma MaskShifted(a: string, x: nat, b: string, y: nat)
    requires x <= |a| && y <= |b| && a[x..] == b[y..]
    ensures MaskAt(a, x) <==> MaskAt(b, y)
  {
    assert forall k :: 0 <= k < |a| - x ==> a[x + k] == a[x..][k];
    assert forall k :: 0 <= k < |b| - y ==> b[y + k] == b[y..][k];
    if x + |MASK| <= |a| {
      assert a[x..x + |MASK|] == a[x..][..|MASK|];
      assert b[y..y + |MASK|] == b[y..][..|MASK|];
    }
  }

  lemma AssignmentShifted(a: string, x: nat, b: string, y: nat)
    requires x <= |a| && y <= |b| && a[x..] == b[y..]
    ensures AssignmentMasked(a, x) <==> AssignmentMasked(b, y)
  {
    ValueShifted(a, x, b, y);
    if ValueAfter(a, x).Some? {
      var v, v' := ValueAfter(a, x).value, ValueAfter(b, y).value;
      Deeper(a, x, b, y, v - x);
      MaskShifted(a, v, b, v');
    }
  }

  /** Between the end of a key and its value there are spaces and one separator, and no word. */
  ghost predicate NoWords(text: string, from: nat, to: nat) {
    from <= to <= |text| && forall q :: from <= q < to ==> !IsWordChar(text[q])
  }

  lemma ValueFacts(text: string, keyEnd: nat)
    requires keyEnd <= |text| && ValueAfter(text, keyEnd).Some?
    ensures var start := ValueAfter(text, keyEnd).value;
            && (IsSpace(text[start - 1]) || IsSeparator(text[start - 1]))
            && NoWords(text, keyEnd, start)
  {
    var s := SkipWhile(text, keyEnd, IsAsciiSpace);
    SkipRun(text, keyEnd, IsAsciiSpace);
    SkipRun(text, s + 1, IsSpace);
    assert forall q :: keyEnd <= q < s ==> IsAsciiSpace(text[q]);
    assert forall q :: s + 1 <= q < ValueAfter(text, keyEnd).value ==> IsSpace(text[q]);
  }

  // ---------------------------------------------------------------------------------------------
  // Replacing one value by the mask
  // ---------------------------------------------------------------------------------------------

  function Edit(text: string, i: nat, j: nat): string
    requires i <= j <= |text|
  {
    text[..i] + MASK + text[j..]
  }

  /** A stretch that starts after a separator or whitespace and runs up to a terminator or the end. */
  predicate EditOk(text: string, i: nat, j: nat) {
    && 0 < i <= j <= |text|
    && (IsSpace(text[i - 1]) || IsSeparator(text[i - 1]))
    && (j == |text| || IsTerminator(text[j]))
  }

  lemma EditTail(text: string, i: nat, j: nat)
    requires i <= j <= |text|
    ensures Edit(text, i, j)[i + |MASK|..] == text[j..] && Edit(text, i, j)[..i] == text[..i]
    ensures MASK == Edit(text, i, j)[i..i + |MASK|]
  {
  }

  lemma WordCharOfMatch(text: string, key: string, p: nat)
    requires IsKey(key) && MatchesAt(text, key, p)
    ensures forall k :: p <= k < p + |key| ==> IsWordChar(text[k])
  {
    forall k | p <= k < p + |key| ensures IsWordChar(text[k]) {
      assert Lower(text[p + (k - p)]) == Lower(key[k - p]);
      assert key[k - p] in key;
    }
  }

  /** A key never overlaps a mask or the characters next to it. */
  lemma KeyOutsideMask(text: string, i: nat, j: nat, key: string, p: nat)
    requires EditOk(text, i, j) && IsKey(key) && MatchesAt(Edit(text, i, j), key, p)
    ensures p + |key| < i || i + |MASK| < p
  {
    var t := Edit(text, i, j);
    WordCharOfMatch(t, key, p);
    EditTail(text, i, j);
    assert t[i - 1] == text[i - 1];
    assert t[i] == MASK[0] && t[i + 9] == MASK[9];
    assert i + |MASK| < |t| ==> t[i + |MASK|] == t[i + |MASK|..][0] == text[j];
    if i < p && p + |key| <= i + 9 {
      assert MatchesAt(MASK, key, p - i) by {
        forall k | 0 <= k < |key| ensures Lower(MASK[p - i + k]) == Lower(key[k]) {
          assert t[p + k] == MASK[p + k - i];
        }
      }
    }
  }

  /** A run that ends before the edit is unchanged by it; no run of spaces gets past its start. */
  lemma SkipBeforeEdit(text: string, i: nat, j: nat, from: nat, p: char -> bool)
    requires EditOk(text, i, j) && from <= i && !p('<')
    ensures var r := SkipWhile(Edit(text, i, j), from, p);
            r <= i && (r < i ==> SkipWhile(text, from, p) == r && Edit(text, i, j)[r] == text[r])
  {
    var t := Edit(text, i, j);
    assert forall k :: 0 <= k < i ==> t[k] == text[k];
    assert t[i] == MASK[0] == '<';
    var r := SkipWhile(t, from, p);
    SkipRun(t, from, p);
    if r < i {
      SkipUnique(text, from, p, r);
    }
  }

  lemma EditIsMask(text: string, i: nat, j: nat)
    requires EditOk(text, i, j)
    ensures MaskAt(Edit(text, i, j), i)
  {
    var t := Edit(text, i, j);
    EditTail(text, i, j);
    assert i + |MASK| < |t| ==> t[i + |MASK|] == t[i + |MASK|..][0] == text[j];
  }

  lemma SeparatorBeforeEdit(text: string, i: nat, j: nat, keyEnd: nat)
    requires EditOk(text, i, j) && keyEnd < i
    ensures var s := SeparatorAfter(Edit(text, i, j), keyEnd);
            s.Some? ==> s.value < i && SeparatorAfter(text, keyEnd) == s
  {
    SkipBeforeEdit(text, i, j, keyEnd, IsAsciiSpace);
    assert Edit(text, i, j)[i] == MASK[0] == '<';
  }

  lemma ValueBeforeEdit(text: string, i: nat, j: nat, keyEnd: nat)
    requires EditOk(text, i, j) && keyEnd < i
    ensures var v := ValueAfter(Edit(text, i, j), keyEnd);
            v.Some? ==> v.value <= i && (v.value < i ==> ValueAfter(text, keyEnd) == v)
  {
    SeparatorBeforeEdit(text, i, j, keyEnd);
    var s := SeparatorAfter(Edit(text, i, j), keyEnd);
    if s.Some? {
      SkipBeforeEdit(text, i, j, s.value + 1, IsSpace);
    }
  }

  /** A masked assignment before the edit stays masked; the edit itself may be its mask. */
  lemma MaskedBeforeEdit(text: string, i: nat, j: nat, keyEnd: nat)
    requires EditOk(text, i, j) && keyEnd < i && AssignmentMasked(text, keyEnd)
    ensures AssignmentMasked(Edit(text, i, j), keyEnd)
  {
    ValueBeforeEdit(text, i, j, keyEnd);
    var v := ValueAfter(Edit(text, i, j), keyEnd);
    if v.Some? && v.value < i {
      MaskClearOfEdit(text, i, j, v.value);
    } else if v.Some? {
      EditIsMask(text, i, j);
    }
  }

  lemma MaskHasNoGap(text: string, v: nat)
    requires MaskAt(text, v)
    ensures forall k :: v <= k < v + |MASK| ==> !IsSpace(text[k]) && !IsSeparator(text[k])
  {
    assert forall c <- MASK :: !IsSpace(c) && !IsSeparator(c);
    forall k | v <= k < v + |MASK| ensures text[k] in MASK {
      assert text[k] == text[v..v + |MASK|][k - v];
    }
  }

  /** A mask that starts before an edit ends before it. */
  lemma MaskClearOfEdit(text: string, i: nat, j: nat, v: nat)
    requires EditOk(text, i, j) && v < i && MaskAt(text, v)
    ensures v + |MASK| < i && MaskAt(Edit(text, i, j), v)
  {
    MaskHasNoGap(text, v);
    EditTail(text, i, j);
    assert forall k :: 0 <= k < i ==> Edit(text, i, j)[k] == text[k];
    assert Edit(text, i, j)[v..v + |MASK|] == text[v..v + |MASK|];
  }

  lemma KeyBeforeEdit(text: string, i: nat, j: nat, key: string, p: nat)
    requires EditOk(text, i, j) && KeyAt(Edit(text, i, j), key, p) && p + |key| < i
    ensures KeyAt(text, key, p)
  {
    EditTail(text, i, j);
    assert forall k :: 0 <= k < i ==> Edit(text, i, j)[k] == text[k];
  }

  lemma KeyBehindEdit(text: string, i: nat, j: nat, key: string, p: nat)
    requires EditOk(text, i, j) && KeyAt(Edit(text, i, j), key, p) && i + |MASK| < p
    requires KeysMasked(text, key, |text|)
    ensures AssignmentMasked(Edit(text, i, j), p + |key|)
  {
    var t := Edit(text, i, j);
    var d := p - (i + |MASK|);
    EditTail(text, i, j);
    KeyShifted(t, i + |MASK|, text, j, key, d);
    assert KeyAt(text, key, j + d);
    ShiftedAssignment(t, i + |MASK|, text, j, d + |key|);
  }

  lemma ShiftedAssignment(a: string, x: nat, b: string, y: nat, d: nat)
    requires x + d <= |a| && y + d <= |b| && a[x..] == b[y..] && AssignmentMasked(b, y + d)
    ensures AssignmentMasked(a, x + d)
  {
    Deeper(a, x, b, y, d);
    AssignmentShifted(a, x + d, b, y + d);
  }

  /** Keys masked before an edit are masked after it, up to the bound. */
  lemma EditKeepsEarlierKeys(text: string, i: nat, j: nat, key: string, bound: nat)
    requires EditOk(text, i, j) && IsKey(key) && KeysMasked(text, key, bound) && bound <= i
    ensures KeysMasked(Edit(text, i, j), key, bound)
  {
    forall p: nat | p < bound && KeyAt(Edit(text, i, j), key, p) ensures AssignmentMasked(Edit(text, i, j), p + |key|) {
      KeyOutsideMask(text, i, j, key, p);
      KeyBeforeEdit(text, i, j, key, p);
      MaskedBeforeEdit(text, i, j, p + |key|);
    }
  }

  lemma EditKeepsKeys(text: string, i: nat, j: nat, key: string)
    requires EditOk(text, i, j) && IsKey(key) && KeysMasked(text, key, |text|)
    ensures KeysMasked(Edit(text, i, j), key, |Edit(text, i, j)|)
  {
    var t := Edit(text, i, j);
    forall p: nat | KeyAt(t, key, p) ensures AssignmentMasked(t, p + |key|) {
      KeyOutsideMask(text, i, j, key, p);
      if p + |key| < i {
        KeyBeforeEdit(text, i, j, key, p);
        MaskedBeforeEdit(text, i, j, p + |key|);
      } else {
        KeyBehindEdit(text, i, j, key, p);
      }
    }
  }

  lemma KeyShifted(a: string, x: nat, b: string, y: nat, key: string, d: nat)
    requires x <= |a| && y <= |b| && a[x..] == b[y..] && d > 0
    ensures KeyAt(a, key, x + d) <==> KeyAt(b, key, y + d)
  {
    assert |a| - x == |b| - y;
    assert forall k :: 0 <= k < |a| - x ==> a[x + k] == a[x..][k] == b[y..][k] == b[y + k];
    MatchShifted(a, x, b, y, key, d);
    if MatchesAt(a, key, x + d) {
      assert a[x + (d - 1)] == b[y + (d - 1)];
      assert x + d + |key| < |a| ==> a[x + (d + |key|)] == b[y + (d + |key|)];
    }
  }

  lemma MatchShifted(a: string, x: nat, b: string, y: nat, needle: string, d: nat)
    requires x <= |a| && y <= |b| && a[x..] == b[y..]
    ensures MatchesAt(a, needle, x + d) <==> MatchesAt(b, needle, y + d)
  {
    assert |a| - x == |b| - y;
    assert forall k :: x <= k < |a| ==> a[k] == a[x..][k - x] == b[y..][k - x] == b[k - x + y];
    if MatchesAt(a, needle, x + d) {
      forall k | 0 <= k < |needle| ensures Lower(b[y + d + k]) == Lower(needle[k]) {
        assert a[x + d + k] == b[(x + d + k) - x + y];
      }
    }
    if MatchesAt(b, needle, y + d) {
      forall k | 0 <= k < |needle| ensures Lower(a[x + d + k]) == Lower(needle[k]) {
        assert a[x + d + k] == b[(x + d + k) - x + y];
      }
    }
  }

  // ---------------------------------------------------------------------------------------------
  // Bearer markers under an edit
  // ---------------------------------------------------------------------------------------------

  /** The letters of the marker and its space; it meets a mask at most at its own end. */
  lemma BearerOutsideMask(text: string, i: nat, j: nat, p: nat)
    requires EditOk(text, i, j) && MatchesAt(Edit(text, i, j), BEARER, p)
    ensures p + 7 <= i || i + |MASK| <= p
  {
    var t := Edit(text, i, j);
    EditTail(text, i, j);
    assert forall k :: 0 <= k < |MASK| ==> t[i + k] == MASK[k];
    assert t[i] == '<' && t[i + 9] == '>';
    assert forall c <- BEARER :: Lower(c) != '<' && Lower(c) != '>';
    forall k | p <= k < p + 7 ensures t[k] != '<' && t[k] != '>' {
      assert Lower(t[p + (k - p)]) == Lower(BEARER[k - p]);
    }
    assert Lower(t[p + 6]) == Lower(BEARER[6]) == ' ';
  }

  lemma BearerBeforeEdit(text: string, i: nat, j: nat, p: nat)
    requires EditOk(text, i, j) && BearersMasked(text, |text|)
    requires p + 7 <= i && MatchesAt(Edit(text, i, j), BEARER, p)
    ensures BearerMasked(Edit(text, i, j), p)
  {
    var t := Edit(text, i, j);
    EditTail(text, i, j);
    assert forall k :: 0 <= k < i ==> t[k] == text[k];
    assert MatchesAt(text, BEARER, p);
    assert t[p..p + 7] == text[p..p + 7];
    if p + 7 < i {
      MaskClearOfEdit(text, i, j, p + 7);
    } else {
      EditIsMask(text, i, j);
    }
  }

  lemma BearerBehindEdit(text: string, i: nat, j: nat, p: nat)
    requires EditOk(text, i, j) && BearersMasked(text, |text|)
    requires i + |MASK| <= p && MatchesAt(Edit(text, i, j), BEARER, p)
    ensures BearerMasked(Edit(text, i, j), p)
  {
    var t, d := Edit(text, i, j), p - (i + |MASK|);
    EditTail(text, i, j);
    MatchShifted(t, i + |MASK|, text, j, BEARER, d);
    assert BearerMasked(text, j + d);
    Deeper(t, i + |MASK|, text, j, d);
    Deeper(t, i + |MASK|, text, j, d + 7);
    assert t[p..p + 7] == t[p..][..7] && text[j + d..j + d + 7] == text[j + d..][..7];
    MaskShifted(t, p + 7, text, j + d + 7);
  }

  lemma EditKeepsBearers(text: string, i: nat, j: nat)
    requires EditOk(text, i, j) && BearersMasked(text, |text|)
    ensures BearersMasked(Edit(text, i, j), |Edit(text, i, j)|)
  {
    var t := Edit(text, i, j);
    forall p: nat | p < |t| && MatchesAt(t, BEARER, p) ensures BearerMasked(t, p) {
      BearerOutsideMask(text, i, j, p);
      if p + 7 <= i {
        BearerBeforeEdit(text, i, j, p);
      } else {
        BearerBehindEdit(text, i, j, p);
      }
    }
  }

  // ---------------------------------------------------------------------------------------------
  // A key pass is a series of edits
  // ---------------------------------------------------------------------------------------------

  /**
   A pass in progress: `done` is the text with the values before a cut masked, and behind the cut it
   still agrees with the scanned text. No key can start at the cut, except at the very beginning.
   */
  ghost predicate InProgress(done: string, m: nat, text: string, n: nat) {
    && m <= |done| && n <= |text| && done[m..] == text[n..]
    && ((m == 0 && n == 0) || n == |text| || !IsWordChar(text[n]))
  }

  lemma CopyInProgress(done: string, m: nat, text: string, n: nat, k: nat, rest: string)
    requires InProgress(done, m, text, n) && n <= k <= |text|
    ensures done[..m + (k - n)] + rest == done[..m] + (text[n..k] + rest)
  {
    Deeper(done, m, text, n, k - n);
    assert text[n..k] == text[n..][..k - n] == done[m..][..k - n];
    assert done[..m + (k - n)] == done[..m] + done[m..][..k - n];
  }

  /** Every span starts after a separator or a space and runs to a terminator or the end. */
  ghost predicate Editable(text: string, n: nat, spans: Spans)
    decreases spans
  {
    match spans
    case End => n <= |text|
    case Span(start, end, rest) => n < start && EditOk(text, start, end) && Editable(text, end, rest)
  }

  lemma {:induction false} EditableWithin(text: string, n: nat, spans: Spans)
    requires Editable(text, n, spans)
    ensures Within(text, n, spans)
    decreases spans
  {
    match spans
    case End =>
    case Span(start, end, rest) => EditableWithin(text, end, rest);
  }

  lemma EditInProgress(done: string, m: nat, text: string, n: nat, start: nat, end: nat)
    requires InProgress(done, m, text, n) && n < start && EditOk(text, start, end)
    ensures EditOk(done, m + (start - n), m + (end - n))
    ensures InProgress(Edit(done, m + (start - n), m + (end - n)), m + (start - n) + |MASK|, text, end)
  {
    Deeper(done, m, text, n, start - n - 1);
    Deeper(done, m, text, n, end - n);
    EditTail(done, m + (start - n), m + (end - n));
  }

  lemma RenderEdit(done: string, m: nat, text: string, n: nat, start: nat, end: nat, rest: string)
    requires InProgress(done, m, text, n) && n < start && EditOk(text, start, end)
    ensures EditOk(done, m + (start - n), m + (end - n))
    ensures Edit(done, m + (start - n), m + (end - n))[..m + (start - n) + |MASK|] + rest
         == done[..m] + (text[n..start] + MASK + rest)
  {
    var i, j := m + (start - n), m + (end - n);
    EditInProgress(done, m, text, n, start, end);
    CopyInProgress(done, m, text, n, start, MASK + rest);
    assert Edit(done, i, j)[..i + |MASK|] == done[..i] + MASK;
    Regroup(done[..i], MASK, rest);
    Regroup(text[n..start], MASK, rest);
  }

  lemma Regroup(a: string, b: string, c: string)
    ensures (a + b) + c == a + (b + c)
  {
  }

  ghost predicate EditClosed(p: string -> bool) {
    forall t, i, j {:trigger Edit(t, i, j)} :: EditOk(t, i, j) && p(t) ==> p(Edit(t, i, j))
  }

  /** A pass is a series of edits: whatever survives each edit survives the pass. */
  lemma {:induction false} RenderIsEdits(
    p: string -> bool, done: string, m: nat, text: string, n: nat, spans: Spans)
    requires InProgress(done, m, text, n) && Editable(text, n, spans) && EditClosed(p) && p(done)
    ensures Within(text, n, spans) && p(done[..m] + Render(text, n, spans, MASK))
    decreases spans
  {
    EditableWithin(text, n, spans);
    match spans
    case End =>
      assert done == done[..m] + done[m..];
    case Span(start, end, rest) =>
      var i, j := m + (start - n), m + (end - n);
      EditInProgress(done, m, text, n, start, end);
      RenderIsEdits(p, Edit(done, i, j), i + |MASK|, text, end, rest);
      RenderEdit(done, m, text, n, start, end, Render(text, end, rest, MASK));
  }

  lemma KeysMaskedIsClosed(key: string)
    requires IsKey(key)
    ensures EditClosed(t => KeysMasked(t, key, |t|))
  {
    forall t, i, j | EditOk(t, i, j) && KeysMasked(t, key, |t|)
      ensures KeysMasked(Edit(t, i, j), key, |Edit(t, i, j)|)
    {
      EditKeepsKeys(t, i, j, key);
    }
  }

  lemma BearersMaskedIsClosed()
    ensures EditClosed(t => BearersMasked(t, |t|))
  {
    forall t, i, j | EditOk(t, i, j) && BearersMasked(t, |t|) ensures BearersMasked(Edit(t, i, j), |Edit(t, i, j)|) {
      EditKeepsBearers(t, i, j);
    }
  }

  // ---------------------------------------------------------------------------------------------
  // A key pass masks its own key
  // ---------------------------------------------------------------------------------------------

  lemma KeyInProgress(done: string, m: nat, text: string, n: nat, key: string, d: nat)
    requires IsKey(key) && InProgress(done, m, text, n)
    ensures KeyAt(done, key, m + d) <==> KeyAt(text, key, n + d)
  {
    if d > 0 {
      KeyShifted(done, m, text, n, key, d);
    } else {
      MatchShifted(done, m, text, n, key, 0);
      if MatchesAt(text, key, n) {
        WordCharOfMatch(text, key, n);
        Deeper(done, m, text, n, |key|);
      }
    }
  }

  /** The first key behind a position is the only one that starts between it and the end of its gap. */
  lemma OnlyFirstKey(text: string, n: nat, key: string, at: nat, to: nat, q: nat)
    requires IsKey(key) && FirstKey(text, n, key, at) && NoWords(text, at + |key|, to)
    requires KeyAt(text, key, q) && n <= q < to
    ensures q == at
  {
    WordCharOfMatch(text, key, at);
    WordCharOfMatch(text, key, q);
    assert at <= q;
    assert IsWordChar(text[q]);
    assert q < at + |key|;
    assert q > 0 ==> !IsWordChar(text[q - 1]);
  }

  /** A run of characters in front of an edit ends where it did, or at the edit. */
  lemma RunUpToEdit(text: string, i: nat, j: nat, from: nat, p: char -> bool)
    requires EditOk(text, i, j) && from <= i && SkipWhile(text, from, p) <= i && !p('<')
    ensures SkipWhile(Edit(text, i, j), from, p) == SkipWhile(text, from, p)
    ensures forall k :: 0 <= k < i ==> Edit(text, i, j)[k] == text[k]
  {
    EditTail(text, i, j);
    SkipRun(text, from, p);
    assert forall k :: 0 <= k < i ==> Edit(text, i, j)[k] == text[k];
    assert Edit(text, i, j)[i] == MASK[0] == '<';
    SkipUnique(Edit(text, i, j), from, p, SkipWhile(text, from, p));
  }

  /** The value an edit writes is the one its key is assigned. */
  lemma EditIsValue(text: string, i: nat, j: nat, keyEnd: nat)
    requires keyEnd <= |text| && ValueAfter(text, keyEnd) == Some(i) && EditOk(text, i, j)
    ensures AssignmentMasked(Edit(text, i, j), keyEnd)
  {
    var s := SeparatorAfter(text, keyEnd).value;
    EditIsMask(text, i, j);
    RunUpToEdit(text, i, j, keyEnd, IsAsciiSpace);
    RunUpToEdit(text, i, j, s + 1, IsSpace);
  }

  /** Every key before a stretch has no value, or has the stretch as its value. */
  ghost predicate Answers(text: string, n: nat, key: string, to: nat, start: nat) {
    forall q: nat :: n <= q < to && KeyAt(text, key, q) ==>
      ValueAfter(text, q + |key|) == None || ValueAfter(text, q + |key|) == Some(start)
  }

  /** Editable spans that answer for every key of the text behind a position. */
  ghost predicate Covers(text: string, n: nat, key: string, spans: Spans)
    decreases spans
  {
    match spans
    case End => n <= |text| && Answers(text, n, key, |text|, |text| + 1)
    case Span(start, end, rest) =>
      && n < start && EditOk(text, start, end)
      && Answers(text, n, key, start, start) && Covers(text, end, key, rest)
  }

  lemma {:induction false} CoversIsEditable(text: string, n: nat, key: string, spans: Spans)
    requires Covers(text, n, key, spans)
    ensures Editable(text, n, spans)
    decreases spans
  {
    if spans.Span? {
      CoversIsEditable(text, spans.end, key, spans.rest);
    }
  }

  lemma AssignmentInProgress(done: string, m: nat, text: string, n: nat, keyEnd: nat)
    requires InProgress(done, m, text, n) && n <= keyEnd <= |text| && ValueAfter(text, keyEnd).None?
    ensures AssignmentMasked(done, m + (keyEnd - n))
  {
    Deeper(done, m, text, n, keyEnd - n);
    ValueShifted(done, m + (keyEnd - n), text, keyEnd);
  }

  /** The edit of the pass masks the value of the key it found. */
  lemma ValueInProgress(done: string, m: nat, text: string, n: nat, keyEnd: nat, start: nat)
    requires InProgress(done, m, text, n) && n <= keyEnd <= |text| && ValueAfter(text, keyEnd) == Some(start)
    ensures m + (keyEnd - n) <= |done| && ValueAfter(done, m + (keyEnd - n)) == Some(m + (start - n))
  {
    Deeper(done, m, text, n, keyEnd - n);
    ValueShifted(done, m + (keyEnd - n), text, keyEnd);
  }

  lemma EditMasksFound(
    done: string, m: nat, text: string, n: nat, keyEnd: nat, start: nat, i: nat, j: nat)
    requires InProgress(done, m, text, n) && n <= keyEnd <= |text| && ValueAfter(text, keyEnd) == Some(start)
    requires i == m + (start - n) && EditOk(done, i, j)
    ensures m + (keyEnd - n) <= |Edit(done, i, j)| && AssignmentMasked(Edit(done, i, j), m + (keyEnd - n))
  {
    ValueInProgress(done, m, text, n, keyEnd, start);
    EditIsValue(done, i, j, m + (keyEnd - n));
  }

  lemma KeyBeforeNewMask(
    done: string, m: nat, text: string, n: nat, key: string, start: nat, i: nat, j: nat, p: nat)
    requires IsKey(key) && InProgress(done, m, text, n) && Answers(text, n, key, start, start)
    requires n <= start && i == m + (start - n) && EditOk(done, i, j)
    requires m <= p < i + |MASK| && KeyAt(Edit(done, i, j), key, p)
    ensures AssignmentMasked(Edit(done, i, j), p + |key|)
  {
    KeyOutsideMask(done, i, j, key, p);
    KeyBeforeEdit(done, i, j, key, p);
    KeyInProgress(done, m, text, n, key, p - m);
    var keyEnd := p - m + n + |key|;
    if ValueAfter(text, keyEnd).None? {
      AssignmentInProgress(done, m, text, n, keyEnd);
      MaskedBeforeEdit(done, i, j, p + |key|);
    } else {
      EditMasksFound(done, m, text, n, keyEnd, start, i, j);
    }
  }

  /** After its value is masked, the text is settled through the mask. */
  lemma SettledValue(done: string, m: nat, text: string, n: nat, key: string, start: nat, i: nat, j: nat)
    requires IsKey(key) && InProgress(done, m, text, n) && KeysMasked(done, key, m)
    requires Answers(text, n, key, start, start)
    requires n <= start && i == m + (start - n) && EditOk(done, i, j)
    ensures KeysMasked(Edit(done, i, j), key, i + |MASK|)
  {
    EditKeepsEarlierKeys(done, i, j, key, m);
    forall p: nat | m <= p < i + |MASK| && KeyAt(Edit(done, i, j), key, p)
      ensures AssignmentMasked(Edit(done, i, j), p + |key|)
    {
      KeyBeforeNewMask(done, m, text, n, key, start, i, j, p);
    }
  }

  lemma SettledTail(done: string, m: nat, text: string, n: nat, key: string)
    requires IsKey(key) && InProgress(done, m, text, n) && KeysMasked(done, key, m)
    requires Answers(text, n, key, |text|, |text| + 1)
    ensures KeysMasked(done, key, |done|)
  {
    forall p: nat | m <= p < |done| && KeyAt(done, key, p) ensures AssignmentMasked(done, p + |key|) {
      KeyInProgress(done, m, text, n, key, p - m);
      Deeper(done, m, text, n, 0);
      AssignmentInProgress(done, m, text, n, p - m + n + |key|);
    }
  }

  /** Rendering spans that answer for a key leaves every assignment to that key masked. */
  lemma {:induction false} RenderMasksKey(done: string, m: nat, text: string, n: nat, key: string, spans: Spans)
    requires IsKey(key) && InProgress(done, m, text, n) && KeysMasked(done, key, m)
    requires Covers(text, n, key, spans) && Within(text, n, spans)
    ensures var after := done[..m] + Render(text, n, spans, MASK); KeysMasked(after, key, |after|)
    decreases spans
  {
    match spans
    case End =>
      assert done == done[..m] + done[m..];
      SettledTail(done, m, text, n, key);
    case Span(start, end, rest) =>
      var i, j := m + (start - n), m + (end - n);
      EditInProgress(done, m, text, n, start, end);
      SettledValue(done, m, text, n, key, start, i, j);
      RenderEdit(done, m, text, n, start, end, Render(text, end, rest, MASK));
      var edited := Edit(done, i, j);
      assert edited[..i + |MASK|] + Render(text, end, rest, MASK) == done[..m] + Render(text, n, spans, MASK);
      RenderMasksKey(edited, i + |MASK|, text, end, key, rest);
  }

  /** A bare key adds nothing to what the keys behind it answer for. */
  lemma BareKeyAnswers(text: string, n: nat, key: string, at: nat, to: nat, start: nat)
    requires IsKey(key) && FirstKey(text, n, key, at) && ValueAfter(text, at + |key|).None?
    requires Answers(text, at + |key|, key, to, start)
    ensures Answers(text, n, key, to, start)
  {
    forall q: nat | n <= q < to && KeyAt(text, key, q) && q < at + |key| ensures q == at {
      OnlyFirstKey(text, n, key, at, at + |key|, q);
    }
  }

  lemma FirstKeyAnswers(text: string, n: nat, key: string, at: nat, start: nat)
    requires IsKey(key) && FirstKey(text, n, key, at) && ValueAfter(text, at + |key|) == Some(start)
    requires NoWords(text, at + |key|, start)
    ensures Answers(text, n, key, start, start)
  {
    forall q: nat | n <= q < start && KeyAt(text, key, q) ensures q == at {
      OnlyFirstKey(text, n, key, at, start, q);
    }
  }

  lemma ValueIsEditable(text: string, keyEnd: nat, start: nat)
    requires keyEnd <= |text| && ValueAfter(text, keyEnd) == Some(start)
    ensures keyEnd < start <= |text| && EditOk(text, start, SkipWhile(text, start, InToken))
    ensures NoWords(text, keyEnd, start)
  {
    ValueFacts(text, keyEnd);
    SkipRun(text, start, InToken);
  }

  /** What a search for a value behind a position promises about all the keys it has passed. */
  ghost predicate SearchAnswers(text: string, n: nat, key: string, found: Option<nat>) {
    match found
    case None => Answers(text, n, key, |text|, |text| + 1)
    case Some(start) =>
      start <= |text| && EditOk(text, start, SkipWhile(text, start, InToken)) && Answers(text, n, key, start, start)
  }

  lemma NoKeyAnswers(text: string, n: nat, key: string)
    requires FindKey(text, key, n).None?
    ensures SearchAnswers(text, n, key, None)
  {
    FindKeyIsFirst(text, key, n);
  }

  lemma BareKeySearch(text: string, n: nat, key: string, at: nat, found: Option<nat>)
    requires IsKey(key) && FindKey(text, key, n) == Some(at) && ValueAfter(text, at + |key|).None?
    requires SearchAnswers(text, at + |key|, key, found)
    ensures SearchAnswers(text, n, key, found)
  {
    FindKeyIsFirst(text, key, n);
    match found
    case None => BareKeyAnswers(text, n, key, at, |text|, |text| + 1);
    case Some(start) => BareKeyAnswers(text, n, key, at, start, start);
  }

  lemma AssignedKeySearch(text: string, n: nat, key: string, at: nat, start: nat)
    requires IsKey(key) && FindKey(text, key, n) == Some(at) && ValueAfter(text, at + |key|) == Some(start)
    ensures SearchAnswers(text, n, key, Some(start))
  {
    FindKeyIsFirst(text, key, n);
    ValueIsEditable(text, at + |key|, start);
    FirstKeyAnswers(text, n, key, at, start);
  }

  lemma FindValueSteps(text: string, n: nat, key: string, at: nat)
    requires n <= |text| && |key| > 0 && FindKey(text, key, n) == Some(at)
    ensures FindValue(text, n, key) == match ValueAfter(text, at + |key|)
                                       case None => FindValue(text, at + |key|, key)
                                       case Some(start) => Some(start)
  {
  }

  /** The value found first answers for every key before it, and with none found no key has a value. */
  lemma FoundValueAnswers(text: string, n: nat, key: string, found: Option<nat>)
    requires IsKey(key) && n <= |text| && found == FindValue(text, n, key)
    ensures SearchAnswers(text, n, key, found)
    decreases |text| - n
  {
    var first := FindKey(text, key, n);
    if first.None? {
      NoKeyAnswers(text, n, key);
    } else {
      KeyFoundAnswers(text, n, key, found, first.value);
    }
  }

  lemma KeyFoundAnswers(text: string, n: nat, key: string, found: Option<nat>, at: nat)
    requires IsKey(key) && n <= |text| && found == FindValue(text, n, key) && FindKey(text, key, n) == Some(at)
    ensures SearchAnswers(text, n, key, found)
    decreases |text| - n, 0
  {
    FindValueSteps(text, n, key, at);
    var value := ValueAfter(text, at + |key|);
    if value.None? {
      FoundValueAnswers(text, at + |key|, key, found);
      BareKeySearch(text, n, key, at, found);
    } else {
      AssignedKeySearch(text, n, key, at, value.value);
    }
  }

  /** The spans found for a key answer for every occurrence of it. */
  lemma {:induction false} FoundValuesAnswer(text: string, n: nat, key: string)
    requires IsKey(key) && n <= |text|
    ensures Covers(text, n, key, FindValues(text, n, key))
    decreases |text| - n
  {
    FoundValueAnswers(text, n, key, FindValue(text, n, key));
    match FindValue(text, n, key)
    case None =>
    case Some(start) => FoundValuesAnswer(text, SkipWhile(text, start, InToken), key);
  }

  lemma PassIsRender(text: string, key: string)
    requires IsKey(key) && Within(text, 0, FindValues(text, 0, key))
    ensures text[..0] + Render(text, 0, FindValues(text, 0, key), MASK) == MaskAssignments(text, key)
  {
  }

  // What a pass leaves alone

  /** The stretches of a text between its spans, and the spans themselves. */
  function Outside(text: string, n: nat, spans: Spans): (pieces: seq<string>)
    requires Within(text, n, spans)
    ensures |pieces| == Count(spans) + 1
    decreases spans
  {
    match spans
    case End => [text[n..]]
    case Span(start, end, rest) => [text[n..start]] + Outside(text, end, rest)
  }

  function Inside(text: string, n: nat, spans: Spans): (pieces: seq<string>)
    requires Within(text, n, spans)
    ensures |pieces| == Count(spans)
    decreases spans
  {
    match spans
    case End => []
    case Span(start, end, rest) => [text[start..end]] + Inside(text, end, rest)
  }

  function Count(spans: Spans): nat {
    match spans
    case End => 0
    case Span(_, _, rest) => 1 + Count(rest)
  }

  function Weave(outside: seq<string>, inside: seq<string>): string
    requires |outside| == |inside| + 1
    decreases |inside|
  {
    if inside == [] then outside[0] else outside[0] + inside[0] + Weave(outside[1..], inside[1..])
  }

  function Repeat(mark: string, count: nat): (marks: seq<string>)
    ensures |marks| == count
  {
    if count == 0 then [] else [mark] + Repeat(mark, count - 1)
  }

  lemma WeaveStep(piece: string, outside: seq<string>, filler: string, inside: seq<string>)
    requires |outside| == |inside| + 1
    ensures Weave([piece] + outside, [filler] + inside) == piece + filler + Weave(outside, inside)
  {
    assert ([piece] + outside)[1..] == outside && ([filler] + inside)[1..] == inside;
  }

  /** A text and its rendering are the same pieces around the spans and around the marks. */
  lemma {:induction false} RenderWeaves(text: string, n: nat, spans: Spans, mark: string)
    requires Within(text, n, spans)
    ensures Weave(Outside(text, n, spans), Inside(text, n, spans)) == text[n..]
    ensures Weave(Outside(text, n, spans), Repeat(mark, Count(spans))) == Render(text, n, spans, mark)
    decreases spans
  {
    match spans
    case End =>
    case Span(start, end, rest) =>
      RenderWeaves(text, end, rest, mark);
      WeaveStep(text[n..start], Outside(text, end, rest), text[start..end], Inside(text, end, rest));
      WeaveStep(text[n..start], Outside(text, end, rest), mark, Repeat(mark, Count(rest)));
      assert text[n..] == text[n..start] + text[start..end] + text[end..];
  }

  /** A word-bounded key has its value at a position. */
  ghost predicate IsValueOf(text: string, key: string, start: nat) {
    exists q: nat :: KeyAt(text, key, q) && ValueAfter(text, q + |key|) == Some(start)
  }

  /** Each span is the whole value of an assignment to the key. */
  ghost predicate AreValues(text: string, key: string, spans: Spans)
    decreases spans
  {
    match spans
    case End => true
    case Span(start, end, rest) =>
      && start <= |text| && end == SkipWhile(text, start, InToken)
      && IsValueOf(text, key, start)
      && AreValues(text, key, rest)
  }

  /** A value that is found belongs to a key. */
  lemma FoundValueHasKey(text: string, n: nat, key: string, start: nat)
    requires n <= |text| && |key| > 0 && FindValue(text, n, key) == Some(start)
    ensures IsValueOf(text, key, start)
    decreases |text| - n, 1
  {
    ValueFoundHasKey(text, n, key, start, FindKey(text, key, n).value);
  }

  lemma ValueFoundHasKey(text: string, n: nat, key: string, start: nat, at: nat)
    requires n <= |text| && |key| > 0 && FindValue(text, n, key) == Some(start) && FindKey(text, key, n) == Some(at)
    ensures IsValueOf(text, key, start)
    decreases |text| - n, 0
  {
    FindValueSteps(text, n, key, at);
    if ValueAfter(text, at + |key|).None? {
      FoundValueHasKey(text, at + |key|, key, start);
    } else {
      KeyHasValue(text, n, key, at, start);
    }
  }

  lemma KeyHasValue(text: string, n: nat, key: string, at: nat, start: nat)
    requires FindKey(text, key, n) == Some(at) && ValueAfter(text, at + |key|) == Some(start)
    ensures IsValueOf(text, key, start)
  {
    FindKeyIsFirst(text, key, n);
  }

  lemma {:induction false} FoundValuesAreValues(text: string, n: nat, key: string)
    requires n <= |text| && |key| > 0
    ensures AreValues(text, key, FindValues(text, n, key))
    decreases |text| - n
  {
    match FindValue(text, n, key)
    case None =>
    case Some(start) =>
      FoundValueHasKey(text, n, key, start);
      FoundValuesAreValues(text, SkipWhile(text, start, InToken), key);
  }

  /** A pass replaces whole values of assignments to its key and nothing else. */
  lemma PassReplacesOnlyValues(text: string, key: string)
    requires |key| > 0
    ensures var spans := FindValues(text, 0, key);
            && Within(text, 0, spans) && AreValues(text, key, spans)
            && text == Weave(Outside(text, 0, spans), Inside(text, 0, spans))
            && MaskAssignments(text, key) == Weave(Outside(text, 0, spans), Repeat(MASK, Count(spans)))
  {
    ValuesWithin(text, 0, key);
    FoundValuesAreValues(text, 0, key);
    RenderWeaves(text, 0, FindValues(text, 0, key), MASK);
    assert text[0..] == text;
  }

  /** Each span is a marker with the whole token behind it. */
  ghost predicate AreMarkers(text: string, spans: Spans)
    decreases spans
  {
    match spans
    case End => true
    case Span(start, end, rest) =>
      MatchesAt(text, BEARER, start) && end == SkipWhile(text, start + 7, InToken) && AreMarkers(text, rest)
  }

  lemma {:induction false} FoundBearersAreMarkers(text: string, n: nat)
    requires n <= |text|
    ensures AreMarkers(text, FindBearers(text, n))
    decreases |text| - n
  {
    FindFromIsFirst(text, BEARER, n);
    match FindFrom(text, BEARER, n)
    case None =>
    case Some(at) => FoundBearersAreMarkers(text, SkipWhile(text, at + 7, InToken));
  }

  /** The bearer pass replaces markers with their tokens and nothing else. */
  lemma BearerPassReplacesOnlyTokens(text: string)
    ensures var spans := FindBearers(text, 0);
            && Within(text, 0, spans) && AreMarkers(text, spans)
            && text == Weave(Outside(text, 0, spans), Inside(text, 0, spans))
            && MaskBearers(text) == Weave(Outside(text, 0, spans), Repeat(MASKED_BEARER, Count(spans)))
  {
    BearersWithin(text, 0);
    FoundBearersAreMarkers(text, 0);
    RenderWeaves(text, 0, FindBearers(text, 0), MASKED_BEARER);
    assert text[0..] == text;
  }

  /** After the pass for a key, every assignment to that key is masked. */
  lemma PassMasksKey(text: string, key: string)
    requires IsKey(key)
    ensures KeysMasked(MaskAssignments(text, key), key, |MaskAssignments(text, key)|)
  {
    FoundValuesAnswer(text, 0, key);
    ValuesWithin(text, 0, key);
    RenderMasksKey(text, 0, text, 0, key, FindValues(text, 0, key));
    PassIsRender(text, key);
  }

  /** A pass for one key keeps whatever survives edits. */
  lemma PassIsEdits(p: string -> bool, text: string, key: string)
    requires IsKey(key) && EditClosed(p) && p(text)
    ensures p(MaskAssignments(text, key))
  {
    FoundValuesAnswer(text, 0, key);
    CoversIsEditable(text, 0, key, FindValues(text, 0, key));
    RenderIsEdits(p, text, 0, text, 0, FindValues(text, 0, key));
    PassIsRender(text, key);
  }

  lemma PassKeepsKeys(text: string, key: string, other: string)
    requires IsKey(key) && IsKey(other) && KeysMasked(text, other, |text|)
    ensures KeysMasked(MaskAssignments(text, key), other, |MaskAssignments(text, key)|)
  {
    var p := t => KeysMasked(t, other, |t|);
    KeysMaskedIsClosed(other);
    PassIsEdits(p, text, key);
    assert p(MaskAssignments(text, key));
  }

  lemma PassKeepsBearers(text: string, key: string)
    requires IsKey(key) && BearersMasked(text, |text|)
    ensures BearersMasked(MaskAssignments(text, key), |MaskAssignments(text, key)|)
  {
    var p := t => BearersMasked(t, |t|);
    BearersMaskedIsClosed();
    PassIsEdits(p, text, key);
    assert p(MaskAssignments(text, key));
  }

  // ---------------------------------------------------------------------------------------------
  // The bearer pass masks every bearer token
  // ---------------------------------------------------------------------------------------------

  function Splice(text: string, i: nat, j: nat): string
    requires i <= j <= |text|
  {
    text[..i] + MASKED_BEARER + text[j..]
  }

  lemma SpliceParts(text: string, i: nat, j: nat)
    requires i <= j <= |text|
    ensures var t := Splice(text, i, j);
            && t[..i] == text[..i] && t[i..i + 7] == "Bearer " && t[i + 7..i + 17] == MASK && t[i + 17..] == text[j..]
  {
    assert MASKED_BEARER[..7] == "Bearer " && MASKED_BEARER[7..] == MASK;
    assert Splice(text, i, j)[i..i + 17] == MASKED_BEARER;
  }

  /** The characters of a marker: its sixth successor is a space, the ones before are the letters. */
  lemma BearerLetters(text: string, p: nat)
    requires MatchesAt(text, BEARER, p)
    ensures Lower(text[p]) == 'b' && text[p + 6] == ' '
    ensures forall k :: p <= k < p + 6 ==> text[k] != ' ' && text[k] != '<' && text[k] != '>'
  {
    assert Lower(text[p + 0]) == Lower(BEARER[0]) == 'b';
    assert Lower(text[p + 6]) == Lower(BEARER[6]) == ' ';
    assert forall k :: 0 <= k < 6 ==> Lower(BEARER[k]) != ' ' && Lower(BEARER[k]) != '<' && Lower(BEARER[k]) != '>';
    forall k | p <= k < p + 6 ensures text[k] != ' ' && text[k] != '<' && text[k] != '>' {
      assert Lower(text[p + (k - p)]) == Lower(BEARER[k - p]);
    }
  }

  /** Around a spliced marker, the only marker is the spliced one. */
  lemma NoMarkerNearSplice(text: string, i: nat, j: nat, p: nat)
    requires i <= j <= |text| && MatchesAt(Splice(text, i, j), BEARER, p)
    ensures p + 7 <= i || p == i || i + 17 <= p
  {
    var t := Splice(text, i, j);
    SpliceParts(text, i, j);
    BearerLetters(t, p);
    assert forall k :: i <= k < i + 7 ==> t[k] == t[i..i + 7][k - i];
    assert forall k :: i + 7 <= k < i + 17 ==> t[k] == t[i + 7..i + 17][k - i - 7];
    assert forall k :: i <= k < i + 6 ==> t[k] != ' ';
    assert t[i + 6] == ' ';
    assert forall c <- MASK :: Lower(c) != 'b';
    assert forall k :: i + 7 <= k < i + 17 ==> t[k] in MASK;
  }

  /** No marker starts in the mask of another. */
  lemma MarkerBehindMask(text: string, i: nat, p: nat)
    requires MatchesAt(text, BEARER, i) && p + 7 <= i && BearerMasked(text, p)
    ensures i >= p + 17
  {
    BearerLetters(text, i);
    assert forall k :: p + 7 <= k < p + 17 ==> text[k] == text[p + 7..p + 17][k - (p + 7)] == MASK[k - (p + 7)];
    assert forall c <- MASK :: Lower(c) != 'b';
  }

  /** A masked marker before a splice stays masked: its mask ends before the spliced marker. */
  lemma MarkerBeforeSplice(text: string, i: nat, j: nat, p: nat)
    requires i <= j <= |text| && MatchesAt(text, BEARER, i)
    requires p + 7 <= i && BearerMasked(text, p)
    ensures BearerMasked(Splice(text, i, j), p)
  {
    var t := Splice(text, i, j);
    SpliceParts(text, i, j);
    MarkerBehindMask(text, i, p);
    BearerLetters(text, i);
    assert !IsTerminator(text[i]);
    assert forall k :: 0 <= k < i ==> t[k] == text[k];
    assert t[p..p + 7] == text[p..p + 7] && t[p + 7..p + 17] == text[p + 7..p + 17];
  }

  /** The spans hold every marker behind a position, each with its token. */
  ghost predicate CoversBearers(text: string, n: nat, spans: Spans)
    decreases spans
  {
    match spans
    case End => n <= |text| && forall q: nat :: n <= q ==> !MatchesAt(text, BEARER, q)
    case Span(at, end, rest) =>
      && FirstMatch(text, n, BEARER, at) && at + 7 <= end <= |text|
      && (end == |text| || IsTerminator(text[end]))
      && CoversBearers(text, end, rest)
  }

  lemma {:induction false} FoundBearersCover(text: string, n: nat)
    requires n <= |text|
    ensures CoversBearers(text, n, FindBearers(text, n))
    decreases |text| - n
  {
    FindFromIsFirst(text, BEARER, n);
    match FindFrom(text, BEARER, n)
    case None =>
    case Some(at) =>
      SkipRun(text, at + 7, InToken);
      FoundBearersCover(text, SkipWhile(text, at + 7, InToken));
  }

  /** One more marker masked: everything before the end of its mask is settled. */
  lemma SettledMarker(done: string, m: nat, text: string, n: nat, i: nat, j: nat)
    requires m <= i <= j <= |done| && n <= |text| && done[m..] == text[n..]
    requires BearersMasked(done, m) && MatchesAt(done, BEARER, i) && (j == |done| || IsTerminator(done[j]))
    requires forall q: nat :: n <= q < n + (i - m) ==> !MatchesAt(text, BEARER, q)
    ensures BearersMasked(Splice(done, i, j), i + 17)
  {
    var t := Splice(done, i, j);
    SpliceParts(done, i, j);
    forall p: nat | p < i + 17 && MatchesAt(t, BEARER, p) ensures BearerMasked(t, p) {
      NoMarkerNearSplice(done, i, j, p);
      if p == i {
        assert j < |done| ==> t[i + 17] == t[i + 17..][0] == done[j];
      } else {
        assert forall k :: 0 <= k < i ==> t[k] == done[k];
        assert MatchesAt(done, BEARER, p);
        if m <= p {
          MatchShifted(done, m, text, n, BEARER, p - m);
        }
        MarkerBeforeSplice(done, i, j, p);
      }
    }
  }

  lemma NextMarkerSettled(done: string, m: nat, text: string, n: nat, at: nat, end: nat)
    requires m <= |done| && n <= |text| && done[m..] == text[n..] && BearersMasked(done, m)
    requires FirstMatch(text, n, BEARER, at) && at + 7 <= end <= |text| && (end == |text| || IsTerminator(text[end]))
    ensures m + (end - n) <= |done|
    ensures BearersMasked(Splice(done, m + (at - n), m + (end - n)), m + (at - n) + 17)
  {
    MatchShifted(done, m, text, n, BEARER, at - n);
    Deeper(done, m, text, n, end - n);
    SettledMarker(done, m, text, n, m + (at - n), m + (end - n));
  }

  lemma SpliceInProgress(done: string, m: nat, text: string, n: nat, at: nat, end: nat, rest: string)
    requires m <= |done| && n <= |text| && done[m..] == text[n..] && n <= at <= end <= |text|
    ensures var i, j := m + (at - n), m + (end - n);
            && j <= |done|
            && Splice(done, i, j)[i + 17..] == text[end..]
            && Splice(done, i, j)[..i + 17] + rest == done[..m] + (text[n..at] + MASKED_BEARER + rest)
  {
    var i, j := m + (at - n), m + (end - n);
    Deeper(done, m, text, n, end - n);
    SpliceParts(done, i, j);
    assert text[n..at] == text[n..][..at - n] == done[m..][..at - n];
    assert done[..i] == done[..m] + done[m..][..at - n];
    assert Splice(done, i, j)[..i + 17] == done[..i] + MASKED_BEARER;
    Regroup(done[..m], text[n..at], MASKED_BEARER);
    Regroup(done[..m], text[n..at] + MASKED_BEARER, rest);
  }

  lemma NoMarkerLeft(done: string, m: nat, text: string, n: nat)
    requires m <= |done| && n <= |text| && done[m..] == text[n..]
    requires forall q: nat :: n <= q ==> !MatchesAt(text, BEARER, q)
    requires BearersMasked(done, m)
    ensures BearersMasked(done, |done|)
  {
    forall p: nat | m <= p ensures !MatchesAt(done, BEARER, p) {
      MatchShifted(done, m, text, n, BEARER, p - m);
    }
  }

  /** Rendering the spans of the markers leaves every marker masked. */
  lemma {:induction false} RenderMasksBearers(done: string, m: nat, text: string, n: nat, spans: Spans)
    requires m <= |done| && n <= |text| && done[m..] == text[n..]
    requires BearersMasked(done, m) && CoversBearers(text, n, spans) && Within(text, n, spans)
    ensures var after := done[..m] + Render(text, n, spans, MASKED_BEARER); BearersMasked(after, |after|)
    decreases spans
  {
    match spans
    case End =>
      assert done == done[..m] + done[m..];
      NoMarkerLeft(done, m, text, n);
    case Span(at, end, rest) =>
      var i, j := m + (at - n), m + (end - n);
      NextMarkerSettled(done, m, text, n, at, end);
      SpliceInProgress(done, m, text, n, at, end, Render(text, end, rest, MASKED_BEARER));
      RenderMasksBearers(Splice(done, i, j), i + 17, text, end, rest);
  }

  lemma MaskBearersMasks(text: string)
    ensures BearersMasked(MaskBearers(text), |MaskBearers(text)|)
  {
    FoundBearersCover(text, 0);
    BearersWithin(text, 0);
    RenderMasksBearers(text, 0, text, 0, FindBearers(text, 0));
    assert text[..0] + MaskBearers(text) == MaskBearers(text);
  }

  // ---------------------------------------------------------------------------------------------
  // Redacted text is left alone
  // ---------------------------------------------------------------------------------------------

  /** Spans that already hold the mark they would be replaced by. */
  ghost predicate Marked(text: string, n: nat, spans: Spans, mark: string)
    decreases spans
  {
    match spans
    case End => n <= |text|
    case Span(start, end, rest) =>
      n <= start <= end <= |text| && text[start..end] == mark && Marked(text, end, rest, mark)
  }

  lemma {:induction false} RenderMarked(text: string, n: nat, spans: Spans, mark: string)
    requires Marked(text, n, spans, mark)
    ensures Within(text, n, spans) && Render(text, n, spans, mark) == text[n..]
    decreases spans
  {
    match spans
    case End =>
    case Span(start, end, rest) =>
      RenderMarked(text, end, rest, mark);
      Rejoin(text, n, start, end);
  }

  lemma Rejoin(text: string, n: nat, start: nat, end: nat)
    requires n <= start <= end <= |text|
    ensures text[n..start] + text[start..end] + text[end..] == text[n..]
  {
  }

  /** The token after a masked position is the mask itself. */
  lemma MaskIsToken(text: string, at: nat)
    requires MaskAt(text, at)
    ensures SkipWhile(text, at, InToken) == at + |MASK|
  {
    assert forall c <- MASK :: InToken(c);
    forall k | at <= k < at + |MASK| ensures InToken(text[k]) {
      assert text[k] == text[at..at + |MASK|][k - at] && text[k] in MASK;
    }
    SkipUnique(text, at, InToken, at + |MASK|);
  }

  lemma FoundValueIsMasked(text: string, n: nat, key: string)
    requires n <= |text| && |key| > 0 && KeysMasked(text, key, |text|)
    ensures var r := FindValue(text, n, key); r.Some? ==> MaskAt(text, r.value)
  {
    if FindValue(text, n, key).Some? {
      var start := FindValue(text, n, key).value;
      FoundValueHasKey(text, n, key, start);
      var q: nat :| KeyAt(text, key, q) && ValueAfter(text, q + |key|) == Some(start);
      assert AssignmentMasked(text, q + |key|);
    }
  }

  lemma {:induction false} MaskedValuesAreMarked(text: string, n: nat, key: string)
    requires n <= |text| && |key| > 0 && KeysMasked(text, key, |text|)
    ensures Marked(text, n, FindValues(text, n, key), MASK)
    decreases |text| - n
  {
    FoundValueIsMasked(text, n, key);
    match FindValue(text, n, key)
    case None =>
    case Some(start) =>
      MaskIsToken(text, start);
      MaskedValuesAreMarked(text, SkipWhile(text, start, InToken), key);
  }

  lemma {:induction false} MaskedBearersAreMarked(text: string, n: nat)
    requires n <= |text| && BearersMasked(text, |text|)
    ensures Marked(text, n, FindBearers(text, n), MASKED_BEARER)
    decreases |text| - n
  {
    FindFromIsFirst(text, BEARER, n);
    match FindFrom(text, BEARER, n)
    case None =>
    case Some(at) =>
      MaskedBearerIsMarked(text, at);
      MaskedBearersAreMarked(text, at + 17);
  }

  lemma MaskedBearerIsMarked(text: string, at: nat)
    requires BearerMasked(text, at)
    ensures SkipWhile(text, at + 7, InToken) == at + 17 <= |text| && text[at..at + 17] == MASKED_BEARER
  {
    MaskIsToken(text, at + 7);
    assert text[at..at + 17] == text[at..at + 7] + text[at + 7..at + 17];
    assert MASKED_BEARER == "Bearer " + MASK;
  }

  lemma KeyPassFixes(text: string, key: string)
    requires |key| > 0 && KeysMasked(text, key, |text|)
    ensures MaskAssignments(text, key) == text
  {
    MaskedValuesAreMarked(text, 0, key);
    RenderMarked(text, 0, FindValues(text, 0, key), MASK);
  }

  lemma BearerPassFixes(text: string)
    requires BearersMasked(text, |text|)
    ensures MaskBearers(text) == text
  {
    MaskedBearersAreMarked(text, 0);
    RenderMarked(text, 0, FindBearers(text, 0), MASKED_BEARER);
  }

  // ---------------------------------------------------------------------------------------------
  // All passes together
  // ---------------------------------------------------------------------------------------------

  lemma {:induction false} KeyPassesMask(text: string, before: seq<string>, keys: seq<string>)
    requires AreKeys(before) && AreKeys(keys) && MaskedFor(text, before)
    ensures MaskedFor(MaskKeys(text, keys), before + keys)
    decreases |keys|
  {
    if keys == [] {
      assert before + keys == before;
    } else {
      var key := keys[0];
      var next := MaskAssignments(text, key);
      PassMasksKey(text, key);
      PassKeepsBearers(text, key);
      forall i | 0 <= i < |before| ensures KeysMasked(next, before[i], |next|) {
        PassKeepsKeys(text, key, before[i]);
      }
      KeyPassesMask(next, before + [key], keys[1..]);
      assert before + [key] + keys[1..] == before + keys;
    }
  }

  lemma {:induction false} KeyPassesFix(text: string, keys: seq<string>)
    requires AreKeys(keys) && MaskedFor(text, keys)
    ensures MaskKeys(text, keys) == text
    decreases |keys|
  {
    if keys != [] {
      KeyPassFixes(text, keys[0]);
      assert forall i :: 0 <= i < |keys| - 1 ==> keys[1..][i] == keys[i + 1];
      KeyPassesFix(text, keys[1..]);
    }
  }

  /**
   After all twelve passes every bearer marker and every assignment to one of the eleven keys is
   followed by the mask, whatever the text: no pass exposes what another one masked.
   */
  lemma RedactTextMasksEverything(text: string)
    ensures Redacted(RedactText(text))
  {
    KeysAreKeys();
    AllPassesMask(text, KEYS);
  }

  lemma AllPassesMask(text: string, keys: seq<string>)
    requires AreKeys(keys)
    ensures MaskedFor(MaskKeys(MaskBearers(text), keys), keys)
  {
    MaskBearersMasks(text);
    KeyPassesMask(MaskBearers(text), [], keys);
    assert [] + keys == keys;
  }

  lemma RedactedIsFixed(text: string)
    requires Redacted(text)
    ensures RedactText(text) == text
  {
    KeysAreKeys();
    BearerPassFixes(text);
    KeyPassesFix(text, KEYS);
  }

  /** A text is left as it is exactly when everything in it is masked already. */
  lemma RedactTextFixes(text: string)
    ensures RedactText(text) == text <==> Redacted(text)
  {
    RedactTextMasksEverything(text);
    if Redacted(text) {
      RedactedIsFixed(text);
    }
  }

  ghost predicate Holds(text: string, part: string) {
    exists a, b :: text == a + part + b
  }

  lemma HoldsInside(a: string, part: string, b: string)
    ensures Holds(a + part + b, part)
  {
  }

  lemma KeyPassLeavesMask(text: string, key: string)
    requires |key| > 0
    ensures MaskAssignments(text, key) == text || Holds(MaskAssignments(text, key), MASK)
  {
    ValuesWithin(text, 0, key);
    match FindValues(text, 0, key)
    case End => assert text[0..] == text;
    case Span(start, end, rest) => HoldsInside(text[0..start], MASK, Render(text, end, rest, MASK));
  }

  lemma BearerPassLeavesMask(text: string)
    ensures MaskBearers(text) == text || Holds(MaskBearers(text), MASK)
  {
    BearersWithin(text, 0);
    match FindBearers(text, 0)
    case End => assert text[0..] == text;
    case Span(at, end, rest) =>
      assert MASKED_BEARER == "Bearer " + MASK;
      var later := Render(text, end, rest, MASKED_BEARER);
      assert text[0..at] + MASKED_BEARER + later == text[0..at] + "Bearer " + MASK + later;
      HoldsInside(text[0..at] + "Bearer ", MASK, later);
  }

  lemma {:induction false} KeyPassesLeaveMask(text: string, keys: seq<string>)
    requires NonEmpty(keys)
    ensures MaskKeys(text, keys) == text || Holds(MaskKeys(text, keys), MASK)
    decreases |keys|
  {
    if keys != [] {
      KeyPassLeavesMask(text, keys[0]);
      KeyPassesLeaveMask(MaskAssignments(text, keys[0]), keys[1..]);
    }
  }

  /** Wherever redaction changes a text it leaves a mask. */
  lemma ChangesLeaveMask(text: string)
    ensures RedactText(text) == text || Holds(RedactText(text), MASK)
  {
    KeysAreKeys();
    BearerPassLeavesMask(text);
    KeyPassesLeaveMask(MaskBearers(text), KEYS);
  }

  /** Redaction is idempotent. */
  lemma RedactTextIdempotent(text: string)
    ensures RedactText(RedactText(text)) == RedactText(text)
  {
    RedactTextMasksEverything(text);
    RedactedIsFixed(RedactText(text));
  }

  // ---------------------------------------------------------------------------------------------
  // The scanning loops
  // ---------------------------------------------------------------------------------------------

  lemma FindKeyUnique(text: string, key: string, from: nat, at: nat)
    requires FirstKey(text, from, key, at)
    ensures FindKey(text, key, from) == Some(at)
  {
    FindKeyIsFirst(text, key, from);
    var r := FindKey(text, key, from);
    assert r.Some?;
    assert !(r.value < at) && !(at < r.value);
  }

  lemma NoKeyFound(text: string, key: string, from: nat)
    requires forall q: nat :: from <= q ==> !KeyAt(text, key, q)
    ensures FindKey(text, key, from) == None
  {
    FindKeyIsFirst(text, key, from);
  }

  /** A word of only word characters cannot be bounded inside another match of it. */
  lemma NoKeyInside(text: string, key: string, at: nat, q: nat)
    requires IsKey(key) && MatchesAt(text, key, at) && at < q < at + |key|
    ensures !KeyAt(text, key, q)
  {
    WordCharOfMatch(text, key, at);
    assert IsWordChar(text[q - 1]);
  }

  /** A view of the text from a position on, at whose start no key can begin unless it is the text's own start. */
  predicate CleanCut(text: string, n: nat) {
    n <= |text| && (n == 0 || n == |text| || !IsWordChar(text[n]))
  }

  /**
   The search loop over the text from a position on. The start of that view counts as a boundary,
   and candidates that are not bounded are stepped over by their whole length.
   */
  method FindKeyAssignment(text: string, from: nat, key: string) returns (r: Option<nat>)
    requires IsKey(key) && CleanCut(text, from)
    ensures r == FindKey(text, key, from)
  {
    var offset := from;
    var limit := if |text| - from < |key| then from else |text| - |key|;
    while offset <= limit
      invariant from <= offset
      invariant forall q: nat :: from <= q < offset ==> !KeyAt(text, key, q)
      decreases |text| + 1 - offset
    {
      FindFromIsFirst(text, key, offset);
      var found := FindFrom(text, key, offset);
      if found.None? {
        NoKeyFound(text, key, from);
        return None;
      }
      var candidate := found.value;
      var beforeValid := candidate == from || !IsWordChar(text[candidate - 1]);
      var after := candidate + |key|;
      var afterValid := after == |text| || !IsWordChar(text[after]);
      WordCharOfMatch(text, key, candidate);
      if beforeValid && afterValid {
        FindKeyUnique(text, key, from, candidate);
        return Some(candidate);
      }
      forall q: nat | from <= q < after ensures !KeyAt(text, key, q) {
        if candidate < q {
          NoKeyInside(text, key, candidate, q);
        }
      }
      offset := after;
    }
    forall q: nat | offset <= q ensures !KeyAt(text, key, q) {
      assert |text| < q + |key|;
    }
    NoKeyFound(text, key, from);
    r := None;
  }

  /** The end of the pass over the text behind a position. */
  function MaskedRest(text: string, n: nat, key: string): string
    requires n <= |text| && |key| > 0
  {
    ValuesWithin(text, n, key);
    Render(text, n, FindValues(text, n, key), MASK)
  }

  lemma {:induction false} RenderEarlier(text: string, n: nat, k: nat, spans: Spans, mark: string)
    requires n <= k && Within(text, k, spans)
    ensures Within(text, n, spans) && Render(text, n, spans, mark) == text[n..k] + Render(text, k, spans, mark)
  {
    match spans
    case End => Rejoin(text, n, n, k);
    case Span(start, end, rest) =>
      assert text[n..start] == text[n..k] + text[k..start];
      Regroup(text[n..k], text[k..start], mark);
      Regroup(text[n..k], text[k..start] + mark, Render(text, end, rest, mark));
  }

  lemma RestPastBareKey(text: string, n: nat, key: string, keyEnd: nat)
    requires n < keyEnd <= |text| && |key| > 0 && FindKey(text, key, n) == Some(keyEnd - |key|)
    requires ValueAfter(text, keyEnd).None?
    ensures MaskedRest(text, n, key) == text[n..keyEnd] + MaskedRest(text, keyEnd, key)
  {
    assert FindValue(text, n, key) == FindValue(text, keyEnd, key);
    ValuesWithin(text, keyEnd, key);
    RenderEarlier(text, n, keyEnd, FindValues(text, keyEnd, key), MASK);
  }

  lemma RestPastValue(text: string, n: nat, key: string, keyEnd: nat, start: nat)
    requires n < keyEnd <= |text| && |key| > 0 && FindKey(text, key, n) == Some(keyEnd - |key|)
    requires ValueAfter(text, keyEnd) == Some(start)
    ensures MaskedRest(text, n, key)
         == text[n..start] + MASK + MaskedRest(text, SkipWhile(text, start, InToken), key)
  {
    assert FindValue(text, n, key) == Some(start);
    ValuesWithin(text, SkipWhile(text, start, InToken), key);
  }

  lemma ExtendOutput(output: string, piece: string, rest: string, all: string, rest0: string)
    requires output + rest0 == all && rest0 == piece + rest
    ensures (output + piece) + rest == all
  {
    Regroup(output, piece, rest);
  }

  /** The pass for a key, as the loop over what remains of the text performs it. */
  method RedactAssignment(text: string, key: string) returns (output: string)
    requires IsKey(key)
    ensures output == MaskAssignments(text, key)
  {
    output := "";
    var n := 0;
    ghost var all := MaskAssignments(text, key);
    while true
      invariant CleanCut(text, n)
      invariant output + MaskedRest(text, n, key) == all
      decreases |text| - n
    {
      var found := FindKeyAssignment(text, n, key);
      if found.None? {
        output := output + text[n..];
        return;
      }
      var piece, next := NextPiece(text, n, key, found.value);
      ExtendOutput(output, piece, MaskedRest(text, next, key), all, MaskedRest(text, n, key));
      output := output + piece;
      n := next;
    }
  }

  /** What the loop emits for the key it found, and where it goes on. */
  method NextPiece(text: string, n: nat, key: string, at: nat) returns (piece: string, next: nat)
    requires IsKey(key) && n <= |text| && FindKey(text, key, n) == Some(at)
    ensures n < next && CleanCut(text, next)
    ensures MaskedRest(text, n, key) == piece + MaskedRest(text, next, key)
  {
    var keyEnd := at + |key|;
    var value := FindSeparatedValue(text, keyEnd);
    if value.None? {
      RestPastBareKey(text, n, key, keyEnd);
      FindKeyIsFirst(text, key, n);
      piece, next := text[n..keyEnd], keyEnd;
    } else {
      RestPastValue(text, n, key, keyEnd, value.value);
      SkipRun(text, value.value, InToken);
      piece, next := text[n..value.value] + MASK, SkipWhile(text, value.value, InToken);
    }
  }

  /** The separator and the value behind a key, if there is a separator. */
  method FindSeparatedValue(text: string, keyEnd: nat) returns (start: Option<nat>)
    requires keyEnd <= |text|
    ensures start == ValueAfter(text, keyEnd)
  {
    var separator := SkipWhile(text, keyEnd, IsAsciiSpace);
    if separator == |text| || !IsSeparator(text[separator]) {
      return None;
    }
    start := Some(SkipWhile(text, separator + 1, IsSpace));
  }

  /** The end of the bearer pass over the text behind a position. */
  function BearerRest(text: string, n: nat): string
    requires n <= |text|
  {
    BearersWithin(text, n);
    Render(text, n, FindBearers(text, n), MASKED_BEARER)
  }

  lemma BearerRestUnfolds(text: string, n: nat, at: nat)
    requires n <= |text| && FindFrom(text, BEARER, n) == Some(at)
    ensures BearerRest(text, n)
         == text[n..at] + MASKED_BEARER + BearerRest(text, SkipWhile(text, at + 7, InToken))
  {
    BearersWithin(text, n);
    BearersWithin(text, SkipWhile(text, at + 7, InToken));
  }

  /** What the loop emits for the marker it found, and where it goes on. */
  method NextBearerPiece(text: string, n: nat, at: nat) returns (piece: string, next: nat)
    requires n <= |text| && FindFrom(text, BEARER, n) == Some(at)
    ensures n < next <= |text| && BearerRest(text, n) == piece + BearerRest(text, next)
  {
    BearerRestUnfolds(text, n, at);
    piece, next := text[n..at] + MASKED_BEARER, SkipWhile(text, at + 7, InToken);
  }

  lemma BearerRestEnds(text: string, n: nat)
    requires n <= |text| && FindFrom(text, BEARER, n).None?
    ensures BearerRest(text, n) == text[n..]
  {
  }

  /** The bearer pass, as the loop over what remains of the text performs it. */
  method RedactBearers(text: string) returns (output: string)
    ensures output == MaskBearers(text)
  {
    output := "";
    var n := 0;
    ghost var all := MaskBearers(text);
    while true
      invariant n <= |text|
      invariant output + BearerRest(text, n) == all
      decreases |text| - n
    {
      var index := FindFrom(text, BEARER, n);
      if index.None? {
        BearerRestEnds(text, n);
        output := output + text[n..];
        return;
      }
      var piece, next := NextBearerPiece(text, n, index.value);
      ExtendOutput(output, piece, BearerRest(text, next), all, BearerRest(text, n));
      output := output + piece;
      n := next;
    }
  }

  /** The key passes, one after another. */
  method RedactKeys(text: string, keys: seq<string>) returns (redacted: string)
    requires AreKeys(keys)
    ensures redacted == MaskKeys(text, keys)
  {
    redacted := text;
    for i := 0 to |keys|
      invariant MaskKeys(redacted, keys[i..]) == MaskKeys(text, keys)
    {
      redacted := RedactAssignment(redacted, keys[i]);
      assert keys[i..][0] == keys[i] && keys[i..][1..] == keys[i + 1..];
    }
  }

  /** The bearer pass first, then the key passes in the order of `KEYS`. */
  method RedactBearerText(text: string) returns (redacted: string)
    ensures redacted == RedactText(text)
  {
    KeysAreKeys();
    redacted := RedactBearers(text);
    redacted := RedactKeys(redacted, KEYS);
  }
}
