/**
 What redaction does to an assignment, character by character: every kind of character, every key and the
 mask are written out here, independently of the predicates the passes use.
 */
module MaskedAssignments {
  import opened Wrappers
  import opened Characters
  import opened Redaction
  import opened RedactionPieces
  import opened DiagnosticRecords
  import opened PrivateRoots
  import opened RepeatedRedaction

  // ---------------------------------------------------------------------------------------------
  // Kinds of characters
  // ---------------------------------------------------------------------------------------------

  predicate InWord(c: char) {
    'a' <= c <= 'z' || 'A' <= c <= 'Z' || '0' <= c <= '9' || c == '_'
  }

  /** Blanks that may stand between a key and its separator. */
  predicate IsAsciiBlank(c: char) {
    c == ' ' || c == '\t' || c == '\n' || c == '\r' || c == '\U{0C}'
  }

  /** White space, as it may stand between a separator and a value and as it ends a token. */
  predicate IsBlank(c: char) {
    || IsAsciiBlank(c) || c == '\U{0B}' || c == '\U{85}' || c == '\U{A0}' || c == '\U{1680}'
    || '\U{2000}' <= c <= '\U{200A}' || c == '\U{2028}' || c == '\U{2029}' || c == '\U{202F}' || c == '\U{205F}'
    || c == '\U{3000}'
  }

  predicate IsDelimiter(c: char) {
    c == '"' || c == '\'' || c == ',' || c == ';' || c == '}' || c == ']'
  }

  /** The same letter, apart from the case of ASCII letters. */
  predicate SameLetter(a: char, b: char) {
    a == b || ('A' <= a <= 'Z' && b as int == a as int + 32) || ('A' <= b <= 'Z' && a as int == b as int + 32)
  }

  predicate Spells(text: string, word: string) {
    |text| == |word| && forall i :: 0 <= i < |text| ==> SameLetter(text[i], word[i])
  }

  predicate WordStands(text: string, word: string, p: nat) {
    p + |word| <= |text| && Spells(text[p..p + |word|], word)
  }

  ghost predicate HasWord(text: string, word: string) {
    exists p: nat :: WordStands(text, word, p)
  }

  lemma KindsOfCharacters(c: char)
    ensures IsWordChar(c) <==> InWord(c)
    ensures IsAsciiSpace(c) <==> IsAsciiBlank(c)
    ensures IsSpace(c) <==> IsBlank(c)
    ensures IsTerminator(c) <==> IsBlank(c) || IsDelimiter(c)
    ensures IsSeparator(c) <==> c == ':' || c == '='
    ensures Delimits(c) <==> IsDelimiter(c)
  {
  }

  lemma Letters(a: char, b: char)
    ensures Lower(a) == Lower(b) <==> SameLetter(a, b)
  {
  }

  // ---------------------------------------------------------------------------------------------
  // Assignments and their positions
  // ---------------------------------------------------------------------------------------------

  /** The eleven keys, in any case. */
  predicate IsSecretKey(key: string) {
    || Spells(key, "authorization") || Spells(key, "bearer_token") || Spells(key, "access_token")
    || Spells(key, "refresh_token") || Spells(key, "password") || Spells(key, "client_secret")
    || Spells(key, "secret_path") || Spells(key, "secret") || Spells(key, "private_key")
    || Spells(key, "signing_key") || Spells(key, "api_key")
  }

  /** A text that assigns something to a key: a front, the key, blanks, a separator, white space, the rest. */
  ghost predicate Assigns(
    text: string, front: string, key: string, gap: string, sep: char, space: string, rest: string)
  {
    && text == front + key + gap + [sep] + space + rest
    && IsSecretKey(key) && (front == "" || !InWord(front[|front| - 1]))
    && (forall c <- gap :: IsAsciiBlank(c)) && (sep == ':' || sep == '=')
    && (forall c <- space :: IsBlank(c)) && (rest == "" || !IsBlank(rest[0]))
  }

  /** The mask stands in front, and a character that ends a token behind it. */
  predicate StartsMasked(rest: string) {
    && |rest| >= 10 && rest[..10] == "<redacted>"
    && (|rest| == 10 || IsBlank(rest[10]) || IsDelimiter(rest[10]))
  }

  lemma SecretKeys(key: string)
    ensures IsSecretKey(key) <==> exists i :: 0 <= i < |KEYS| && Spells(key, KEYS[i])
  {
    if Spells(key, "authorization") { assert KEYS[0] == "authorization"; }
    if Spells(key, "bearer_token") { assert KEYS[1] == "bearer_token"; }
    if Spells(key, "access_token") { assert KEYS[2] == "access_token"; }
    if Spells(key, "refresh_token") { assert KEYS[3] == "refresh_token"; }
    if Spells(key, "password") { assert KEYS[4] == "password"; }
    if Spells(key, "client_secret") { assert KEYS[5] == "client_secret"; }
    if Spells(key, "secret_path") { assert KEYS[6] == "secret_path"; }
    if Spells(key, "secret") { assert KEYS[7] == "secret"; }
    if Spells(key, "private_key") { assert KEYS[8] == "private_key"; }
    if Spells(key, "signing_key") { assert KEYS[9] == "signing_key"; }
    if Spells(key, "api_key") { assert KEYS[10] == "api_key"; }
  }

  lemma SpelledMatches(front: string, word: string, rest: string, needle: string)
    ensures |word| == |needle| ==>
              (MatchesAt(front + word + rest, needle, |front|) <==> Spells(word, needle))
  {
    var text := front + word + rest;
    if |word| == |needle| {
      forall i | 0 <= i < |word|
        ensures Lower(text[|front| + i]) == Lower(needle[i]) <==> SameLetter(word[i], needle[i])
      {
        assert text[|front| + i] == word[i];
        Letters(word[i], needle[i]);
      }
    }
  }

  /** The parts of an assignment, by position. */
  lemma PartsByPosition(
    text: string, front: string, key: string, gap: string, sep: char, space: string, rest: string)
    requires Assigns(text, front, key, gap, sep, space, rest)
    ensures var keyEnd := |front| + |key|;
            var s := keyEnd + |gap|;
            var start := s + 1 + |space|;
            && start <= |text| && text[..|front|] == front && text[|front|..keyEnd] == key && text[s] == sep
            && (forall q :: keyEnd <= q < s ==> IsAsciiBlank(text[q]))
            && (forall q :: s < q < start ==> IsBlank(text[q]))
            && text[start..] == rest
  {
    var keyEnd := |front| + |key|;
    var s := keyEnd + |gap|;
    forall q | keyEnd <= q < s ensures IsAsciiBlank(text[q]) {
      assert text[q] == gap[q - keyEnd];
    }
    forall q | s < q < s + 1 + |space| ensures IsBlank(text[q]) {
      assert text[q] == space[q - s - 1];
    }
  }

  lemma KeyStands(
    text: string, front: string, key: string, gap: string, sep: char, space: string, rest: string, i: nat)
    requires Assigns(text, front, key, gap, sep, space, rest) && i < |KEYS| && Spells(key, KEYS[i])
    ensures KeyAt(text, KEYS[i], |front|)
  {
    var behind := gap + [sep] + space + rest;
    assert text == front + key + behind;
    SpelledMatches(front, key, behind, KEYS[i]);
    assert front != "" ==> text[|front| - 1] == front[|front| - 1];
    assert text[|front| + |key|] == behind[0];
    assert behind[0] == sep || IsAsciiBlank(behind[0]);
  }

  lemma ValueByPosition(text: string, keyEnd: nat, s: nat, start: nat)
    requires keyEnd <= s < start <= |text| && IsSeparator(text[s])
    requires (forall q :: keyEnd <= q < s ==> IsAsciiSpace(text[q])) && (forall q :: s < q < start ==> IsSpace(text[q]))
    requires start < |text| ==> !IsSpace(text[start])
    ensures ValueAfter(text, keyEnd) == Some(start)
  {
    SkipUnique(text, keyEnd, IsAsciiSpace, s);
    SkipUnique(text, s + 1, IsSpace, start);
  }

  /** Where the value of an assignment starts. */
  lemma AssignedValue(
    text: string, front: string, key: string, gap: string, sep: char, space: string, rest: string, i: nat)
    requires Assigns(text, front, key, gap, sep, space, rest) && i < |KEYS| && Spells(key, KEYS[i])
    ensures KeyAt(text, KEYS[i], |front|)
    ensures |front| + |key| <= |text|
    ensures ValueAfter(text, |front| + |key|) == Some(|front| + |key| + |gap| + 1 + |space|)
  {
    var keyEnd := |front| + |key|;
    var s := keyEnd + |gap|;
    var start := s + 1 + |space|;
    KeyStands(text, front, key, gap, sep, space, rest, i);
    PartsByPosition(text, front, key, gap, sep, space, rest);
    assert start < |text| ==> text[start] == text[start..][0];
    ValueByPosition(text, keyEnd, s, start);
  }

  lemma Slices(text: string, p: nat, keyEnd: nat, s: nat, start: nat)
    requires p <= keyEnd <= s < start <= |text|
    ensures text == text[..p] + text[p..keyEnd] + text[keyEnd..s] + [text[s]] + text[s + 1..start] + text[start..]
    ensures text == text[..p] + text[p..keyEnd] + text[keyEnd..]
  {
  }

  lemma KeyIsSecret(text: string, i: nat, p: nat)
    requires i < |KEYS| && MatchesAt(text, KEYS[i], p)
    ensures IsSecretKey(text[p..p + |KEYS[i]|])
  {
    var keyEnd := p + |KEYS[i]|;
    var key := text[p..keyEnd];
    assert text == text[..p] + key + text[keyEnd..];
    SpelledMatches(text[..p], key, text[keyEnd..], KEYS[i]);
    SecretKeys(key);
  }

  lemma SlicesAssign(text: string, p: nat, keyEnd: nat, s: nat, start: nat)
    requires p <= keyEnd <= s < start <= |text| && IsSecretKey(text[p..keyEnd])
    requires p == 0 || !InWord(text[p - 1])
    requires (forall q :: keyEnd <= q < s ==> IsAsciiBlank(text[q])) && (text[s] == ':' || text[s] == '=')
    requires (forall q :: s < q < start ==> IsBlank(text[q])) && (start < |text| ==> !IsBlank(text[start]))
    ensures Assigns(text, text[..p], text[p..keyEnd], text[keyEnd..s], text[s], text[s + 1..start], text[start..])
  {
    Slices(text, p, keyEnd, s, start);
  }

  /** Every bounded key with a value is an assignment. */
  lemma ValueIsAssigned(text: string, i: nat, p: nat, keyEnd: nat, s: nat, start: nat)
    requires i < |KEYS| && KeyAt(text, KEYS[i], p) && keyEnd == p + |KEYS[i]|
    requires SeparatorAfter(text, keyEnd) == Some(s) && ValueAfter(text, keyEnd) == Some(start)
    ensures Assigns(text, text[..p], text[p..keyEnd], text[keyEnd..s], text[s], text[s + 1..start], text[start..])
  {
    KeyIsSecret(text, i, p);
    RunsBehindKey(text, keyEnd, s, start);
    SlicesAssign(text, p, keyEnd, s, start);
  }

  lemma RunsBehindKey(text: string, keyEnd: nat, s: nat, start: nat)
    requires keyEnd <= |text| && SeparatorAfter(text, keyEnd) == Some(s) && ValueAfter(text, keyEnd) == Some(start)
    ensures s < start && (text[s] == ':' || text[s] == '=') && (start < |text| ==> !IsBlank(text[start]))
    ensures forall q :: keyEnd <= q < s ==> IsAsciiBlank(text[q])
    ensures forall q :: s < q < start ==> IsBlank(text[q])
  {
    SkipRun(text, keyEnd, IsAsciiSpace);
    SkipRun(text, s + 1, IsSpace);
    assert forall q :: keyEnd <= q < s ==> IsAsciiSpace(text[q]);
    assert forall q :: s + 1 <= q < start ==> IsSpace(text[q]);
  }

  // ---------------------------------------------------------------------------------------------
  // Redacted texts, character by character
  // ---------------------------------------------------------------------------------------------

  /** A text that holds the marker of a token somewhere. */
  ghost predicate Marks(text: string, front: string, marker: string, rest: string) {
    text == front + marker + rest && Spells(marker, "bearer ")
  }

  /** Every marker is written "Bearer " and followed by the mask. */
  ghost predicate TokensMasked(text: string) {
    forall front, marker, rest :: Marks(text, front, marker, rest) ==> marker == "Bearer " && StartsMasked(rest)
  }

  /** Every assignment to one of the keys has the mask as its value. */
  ghost predicate ValuesMasked(text: string) {
    forall front, key, gap, sep, space, rest ::
      Assigns(text, front, key, gap, sep, space, rest) ==> StartsMasked(rest)
  }

  lemma MaskStarts(text: string, at: nat)
    requires at <= |text|
    ensures MaskAt(text, at) <==> StartsMasked(text[at..])
  {
    var rest := text[at..];
    if |rest| >= 10 {
      assert rest[..10] == text[at..at + 10];
      assert |rest| > 10 ==> rest[10] == text[at + 10];
    }
  }

  lemma TokensMaskedExactly(text: string)
    ensures BearersMasked(text, |text|) <==> TokensMasked(text)
  {
    if BearersMasked(text, |text|) {
      forall front, marker, rest | Marks(text, front, marker, rest) ensures marker == "Bearer " && StartsMasked(rest) {
        MarkerIsMasked(text, front, marker, rest);
      }
    }
    if TokensMasked(text) {
      forall p: nat | MatchesAt(text, BEARER, p) ensures BearerMasked(text, p) {
        MaskedMarker(text, p);
      }
    }
  }

  lemma MarkerIsMasked(text: string, front: string, marker: string, rest: string)
    requires BearersMasked(text, |text|) && Marks(text, front, marker, rest)
    ensures marker == "Bearer " && StartsMasked(rest)
  {
    var p := |front|;
    SpelledMatches(front, marker, rest, BEARER);
    assert text[p..p + 7] == marker && text[p + 7..] == rest;
    MaskStarts(text, p + 7);
  }

  lemma MaskedMarker(text: string, p: nat)
    requires TokensMasked(text) && MatchesAt(text, BEARER, p)
    ensures BearerMasked(text, p)
  {
    var front, marker, rest := text[..p], text[p..p + 7], text[p + 7..];
    assert text == front + marker + rest;
    SpelledMatches(front, marker, rest, BEARER);
    assert Marks(text, front, marker, rest);
    MaskStarts(text, p + 7);
  }

  lemma ValuesMaskedExactly(text: string)
    ensures (forall i :: 0 <= i < |KEYS| ==> KeysMasked(text, KEYS[i], |text|)) <==> ValuesMasked(text)
  {
    if forall i :: 0 <= i < |KEYS| ==> KeysMasked(text, KEYS[i], |text|) {
      forall front, key, gap, sep, space, rest | Assigns(text, front, key, gap, sep, space, rest)
        ensures StartsMasked(rest)
      {
        AssignmentIsMaskedIn(text, front, key, gap, sep, space, rest);
      }
    }
    if ValuesMasked(text) {
      forall i, p: nat | 0 <= i < |KEYS| && p < |text| && KeyAt(text, KEYS[i], p)
        ensures AssignmentMasked(text, p + |KEYS[i]|)
      {
        MaskedValue(text, i, p);
      }
    }
  }

  lemma AssignmentIsMaskedIn(
    text: string, front: string, key: string, gap: string, sep: char, space: string, rest: string)
    requires forall i :: 0 <= i < |KEYS| ==> KeysMasked(text, KEYS[i], |text|)
    requires Assigns(text, front, key, gap, sep, space, rest)
    ensures StartsMasked(rest)
  {
    SecretKeys(key);
    var i :| 0 <= i < |KEYS| && Spells(key, KEYS[i]);
    NamedAssignment(text, front, key, gap, sep, space, rest, i);
  }

  lemma NamedAssignment(
    text: string, front: string, key: string, gap: string, sep: char, space: string, rest: string, i: nat)
    requires i < |KEYS| && Spells(key, KEYS[i]) && KeysMasked(text, KEYS[i], |text|)
    requires Assigns(text, front, key, gap, sep, space, rest)
    ensures StartsMasked(rest)
  {
    var start := |front| + |key| + |gap| + 1 + |space|;
    AssignedValue(text, front, key, gap, sep, space, rest, i);
    ValueIsMasked(text, KEYS[i], |front|, start);
    MaskStarts(text, start);
    RestByPosition(text, front + key + gap + [sep] + space, rest, start);
  }

  lemma RestByPosition(text: string, head: string, rest: string, start: nat)
    requires text == head + rest && start == |head|
    ensures text[start..] == rest
  {
  }

  lemma ValueIsMasked(text: string, key: string, p: nat, start: nat)
    requires KeysMasked(text, key, |text|) && |key| > 0 && KeyAt(text, key, p)
    requires ValueAfter(text, p + |key|) == Some(start)
    ensures MaskAt(text, start)
  {
    assert AssignmentMasked(text, p + |key|);
  }

  lemma MaskedValue(text: string, i: nat, p: nat)
    requires i < |KEYS| && ValuesMasked(text) && KeyAt(text, KEYS[i], p)
    ensures AssignmentMasked(text, p + |KEYS[i]|)
  {
    var keyEnd := p + |KEYS[i]|;
    if ValueAfter(text, keyEnd).Some? {
      var s, start := SeparatorAfter(text, keyEnd).value, ValueAfter(text, keyEnd).value;
      ValueIsAssigned(text, i, p, keyEnd, s, start);
      MaskStarts(text, start);
    }
  }

  /** After redaction every marker and every assignment is masked, whatever the text. */
  lemma EverythingIsMasked(text: string)
    ensures TokensMasked(RedactText(text)) && ValuesMasked(RedactText(text))
  {
    RedactTextMasksEverything(text);
    TokensMaskedExactly(RedactText(text));
    ValuesMaskedExactly(RedactText(text));
  }

  /** And exactly the texts in which they are masked already are left as they are. */
  lemma MaskedTextsAreFixed(text: string)
    ensures RedactText(text) == text <==> TokensMasked(text) && ValuesMasked(text)
  {
    RedactTextFixes(text);
    TokensMaskedExactly(text);
    ValuesMaskedExactly(text);
  }

  // ---------------------------------------------------------------------------------------------
  // One assignment
  // ---------------------------------------------------------------------------------------------

  /** A value is free of what ends one. */
  ghost predicate IsToken(token: string) {
    forall c <- token :: !IsBlank(c) && !IsDelimiter(c)
  }

  /** Nothing, or the delimiter behind a value. */
  predicate IsTail(tail: string) {
    tail == "" || (|tail| == 1 && IsDelimiter(tail[0]))
  }

  /** A front without separators and markers, in which nothing can be masked. */
  ghost predicate IsQuiet(front: string) {
    (forall c <- front :: c != ':' && c != '=') && !HasWord(front, "bearer ")
  }

  /** A pass over a token leaves a token: its values end with it. */
  lemma TokenPass(token: string, tail: string, key: string) returns (next: string)
    requires IsKey(key) && IsToken(token) && IsTail(tail)
    ensures IsToken(next) && MaskAssignments(token + tail, key) == next + tail
  {
    var text := token + tail;
    var spans := FindValues(text, 0, key);
    ValuesWithin(text, 0, key);
    if tail == "" {
      assert text == token;
    } else {
      KindsOfCharacters(tail[0]);
      FoundAreSpans(text, 0, key);
      FoundAreSpans("", 0, key);
      ValueSpansSplit(text, "", key, 0, spans, FindValues("", 0, key));
      assert text[..|text| - 1] == token;
    }
    RenderJoined(token, tail, 0, spans, End, MASK);
    ThenEnd(spans);
    assert Render(tail, 0, End, MASK) == tail;
    next := Render(token, 0, spans, MASK);
    FoundAreSpans(text, 0, key);
    RenderedToken(token, spans);
  }

  lemma RenderedToken(token: string, spans: Spans)
    requires IsToken(token) && Within(token, 0, spans) && (spans.Span? ==> spans.start > 0)
    ensures IsToken(Render(token, 0, spans, MASK))
  {
    RenderedChars(token, 0, spans);
    var next := Render(token, 0, spans, MASK);
    assert forall c <- MASK :: !IsBlank(c) && !IsDelimiter(c);
    forall c <- next ensures !IsBlank(c) && !IsDelimiter(c) {
      assert c in token || c in MASK;
    }
  }

  lemma {:induction false} RenderedChars(text: string, n: nat, spans: Spans)
    requires Within(text, n, spans)
    ensures forall c <- Render(text, n, spans, MASK) :: c in text || c in MASK
    decreases spans
  {
    match spans
    case End =>
    case Span(start, end, rest) => RenderedChars(text, end, rest);
  }

  /** An assignment behind a quiet front, up to its value. */
  ghost predicate Heads(
    head: string, front: string, key: string, gap: string, sep: char, space: string)
  {
    IsQuiet(front) && Assigns(head, front, key, gap, sep, space, "")
  }

  lemma HeadAssigns(
    head: string, front: string, key: string, gap: string, sep: char, space: string, rest: string)
    requires Heads(head, front, key, gap, sep, space) && (rest == "" || !IsBlank(rest[0]))
    ensures Assigns(head + rest, front, key, gap, sep, space, rest)
  {
    assert head + "" == head;
  }

  /** A bounded key that starts inside the head is its own key. */
  lemma OnlyKeyOfHead(
    text: string, front: string, key: string, gap: string, sep: char, space: string, rest: string,
    i: nat, j: nat, p: nat)
    requires Assigns(text, front, key, gap, sep, space, rest) && (forall c <- front :: c != ':' && c != '=')
    requires i < |KEYS| && Spells(key, KEYS[i]) && j < |KEYS| && HasValue(text, KEYS[j], p)
    requires p < |front| + |key| + |gap| + 1 + |space|
    ensures p == |front| && j == i
  {
    HeadWord(text, front, key, gap, sep, space, rest, i);
    OnlyWord(text, |front|, |front| + |key|, |front| + |key| + |gap| + 1 + |space|, i, j, p);
  }

  /** The key of a head is one word, with nothing but blanks and the separator behind it. */
  ghost predicate IsHeadWord(text: string, from: nat, to: nat, end: nat, i: nat) {
    && from < to < end <= |text| && i < |KEYS| && KeyAt(text, KEYS[i], from) && |KEYS[i]| == to - from
    && (forall q :: from <= q < to ==> IsWordChar(text[q])) && (forall q :: to <= q < end ==> !IsWordChar(text[q]))
    && (forall q :: 0 <= q < from ==> !IsSeparator(text[q]))
  }

  lemma HeadWord(
    text: string, front: string, key: string, gap: string, sep: char, space: string, rest: string, i: nat)
    requires Assigns(text, front, key, gap, sep, space, rest) && (forall c <- front :: c != ':' && c != '=')
    requires i < |KEYS| && Spells(key, KEYS[i])
    ensures IsHeadWord(text, |front|, |front| + |key|, |front| + |key| + |gap| + 1 + |space|, i)
  {
    KeysAreKeys();
    var keyEnd := |front| + |key|;
    PartsByPosition(text, front, key, gap, sep, space, rest);
    KeyStands(text, front, key, gap, sep, space, rest, i);
    WordCharOfMatch(text, KEYS[i], |front|);
    NoWordsInGap(text, keyEnd, keyEnd + |gap|, keyEnd + |gap| + 1 + |space|);
    forall q | 0 <= q < |front| ensures !IsSeparator(text[q]) {
      assert text[q] == front[q] && front[q] in front;
    }
  }

  lemma OnlyWord(text: string, from: nat, to: nat, end: nat, i: nat, j: nat, p: nat)
    requires IsHeadWord(text, from, to, end, i) && j < |KEYS| && HasValue(text, KEYS[j], p) && p < end
    ensures p == from && j == i
  {
    KeysAreKeys();
    NoSeparatorInFront(text, from, KEYS[j], p);
    OneWord(text, from, to, end, KEYS[j], p);
    SameKey(text, from, i, j);
  }

  lemma NoWordsInGap(text: string, keyEnd: nat, s: nat, start: nat)
    requires keyEnd <= s < start <= |text| && (text[s] == ':' || text[s] == '=')
    requires forall q :: keyEnd <= q < s ==> IsAsciiBlank(text[q])
    requires forall q :: s < q < start ==> IsBlank(text[q])
    ensures forall q :: keyEnd <= q < start ==> !IsWordChar(text[q])
  {
  }

  /** A bounded word that ends behind the start of another one, and starts in front of its gap's end, is that one. */
  lemma OneWord(text: string, from: nat, to: nat, end: nat, word: string, p: nat)
    requires from < to < end <= |text| && (from == 0 || !IsWordChar(text[from - 1]))
    requires forall q :: from <= q < to ==> IsWordChar(text[q])
    requires forall q :: to <= q < end ==> !IsWordChar(text[q])
    requires IsKey(word) && KeyAt(text, word, p) && from < p + |word| && p < end
    ensures p == from && |word| == to - from
  {
    WordCharOfMatch(text, word, p);
    assert IsWordChar(text[p]);
    assert !IsWordChar(text[to]);
  }

  /** A key with a value does not end in a front without separators. */
  lemma NoSeparatorInFront(text: string, from: nat, key: string, p: nat)
    requires from < |text| && (forall q :: 0 <= q < from ==> !IsSeparator(text[q]))
    requires IsWordChar(text[from]) && HasValue(text, key, p)
    ensures p + |key| > from
  {
    assert !IsAsciiSpace(text[from]) && !IsSeparator(text[from]);
    SkipRun(text, p + |key|, IsAsciiSpace);
  }

  lemma SameKey(text: string, p: nat, i: nat, j: nat)
    requires i < |KEYS| && j < |KEYS| && |KEYS[i]| == |KEYS[j]|
    requires MatchesAt(text, KEYS[i], p) && MatchesAt(text, KEYS[j], p)
    ensures i == j
  {
    KeysAreLower(i);
    KeysAreLower(j);
    SameNeedle(text, p, KEYS[i], KEYS[j]);
    KeysDiffer(i, j);
  }

  lemma KeysAreLower(i: nat)
    requires i < |KEYS|
    ensures forall k :: 0 <= k < |KEYS[i]| ==> Lower(KEYS[i][k]) == KEYS[i][k]
  {
  }

  lemma SameNeedle(text: string, p: nat, a: string, b: string)
    requires |a| == |b| && MatchesAt(text, a, p) && MatchesAt(text, b, p)
    requires forall k :: 0 <= k < |a| ==> Lower(a[k]) == a[k] && Lower(b[k]) == b[k]
    ensures a == b
  {
    forall k | 0 <= k < |a| ensures a[k] == b[k] {
      assert Lower(text[p + k]) == Lower(a[k]) == Lower(b[k]);
    }
  }

  lemma KeysDiffer(i: nat, j: nat)
    requires i < |KEYS| && j < |KEYS| && KEYS[i] == KEYS[j]
    ensures i == j
  {
  }

  /** The pass for another key works on the token alone. */
  lemma OtherPass(
    head: string, front: string, key: string, gap: string, sep: char, space: string, token: string, tail: string,
    i: nat, j: nat) returns (next: string)
    requires Heads(head, front, key, gap, sep, space) && IsToken(token) && IsTail(tail)
    requires i < |KEYS| && Spells(key, KEYS[i]) && j < |KEYS| && i != j
    ensures IsToken(next) && MaskAssignments(head + (token + tail), KEYS[j]) == head + (next + tail)
  {
    KeysAreKeys();
    var b := token + tail;
    var text := head + b;
    HeadAssigns(head, front, key, gap, sep, space, b);
    HeadEnds(head, front, key, gap, sep, space);
    BehindPiece(head, b);
    forall p: nat | p < |head| ensures !HasValue(text, KEYS[j], p) {
      if HasValue(text, KEYS[j], p) {
        OnlyKeyOfHead(text, front, key, gap, sep, space, b, i, j, p);
      }
    }
    PassBehind(head, b, KEYS[j]);
    next := TokenPass(token, tail, KEYS[j]);
  }

  lemma HeadEnds(head: string, front: string, key: string, gap: string, sep: char, space: string)
    requires Heads(head, front, key, gap, sep, space)
    ensures |head| == |front| + |key| + |gap| + 1 + |space| && !IsWordChar(head[|head| - 1])
  {
    assert head == front + key + gap + [sep] + space;
    if space != "" {
      assert head[|head| - 1] == space[|space| - 1] && space[|space| - 1] in space;
    } else {
      assert head[|head| - 1] == sep;
    }
  }

  /** The value of the head's key is the token, and the only one. */
  lemma OwnValue(
    head: string, front: string, key: string, gap: string, sep: char, space: string, token: string, tail: string,
    text: string, i: nat)
    requires Heads(head, front, key, gap, sep, space) && IsToken(token) && IsTail(tail)
    requires i < |KEYS| && Spells(key, KEYS[i]) && text == head + (token + tail)
    ensures FirstValue(text, 0, KEYS[i], |front|, |head|)
  {
    var b := token + tail;
    HeadAssigns(head, front, key, gap, sep, space, b);
    HeadEnds(head, front, key, gap, sep, space);
    AssignedValue(text, front, key, gap, sep, space, b, i);
    forall p: nat | p < |front| ensures !HasValue(text, KEYS[i], p) {
      if HasValue(text, KEYS[i], p) {
        OnlyKeyOfHead(text, front, key, gap, sep, space, b, i, i, p);
      }
    }
  }

  /** The pass for the key of the head replaces the token by the mask. */
  lemma OwnPass(
    head: string, front: string, key: string, gap: string, sep: char, space: string, token: string, tail: string,
    i: nat)
    requires Heads(head, front, key, gap, sep, space) && IsToken(token) && IsTail(tail)
    requires i < |KEYS| && Spells(key, KEYS[i])
    ensures MaskAssignments(head + (token + tail), KEYS[i]) == head + (MASK + tail)
  {
    KeysAreKeys();
    var text := head + (token + tail);
    HeadEnds(head, front, key, gap, sep, space);
    OwnValue(head, front, key, gap, sep, space, token, tail, text, i);
    TokenEnds(head, token, tail);
    TailHasNoValue(text, |head| + |token|, KEYS[i]);
    OneSpan(text, KEYS[i], |front|, |head|, |head| + |token|);
    AroundToken(head, token, tail);
  }

  lemma AroundToken(head: string, token: string, tail: string)
    ensures var text := head + (token + tail);
            text[..|head|] + MASK + text[|head| + |token|..] == head + (MASK + tail)
  {
    var text := head + (token + tail);
    assert text[..|head|] == head && text[|head| + |token|..] == tail;
    Regroup(head, MASK, tail);
  }

  lemma OneSpan(text: string, key: string, q: nat, start: nat, end: nat)
    requires IsKey(key) && FirstValue(text, 0, key, q, start) && 0 < start <= end <= |text|
    requires SkipWhile(text, start, InToken) == end && NoValue(text, end, |text|, key)
    ensures MaskAssignments(text, key) == text[..start] + MASK + text[end..]
  {
    assert ValueSpans(text, end, key, End);
    SpansAreFound(text, 0, key, Span(start, end, End));
    assert Render(text, end, End, MASK) == text[end..];
    assert text[0..start] == text[..start];
  }

  lemma TokenEnds(head: string, token: string, tail: string)
    requires IsToken(token) && IsTail(tail)
    ensures var text := head + (token + tail);
            && SkipWhile(text, |head|, InToken) == |head| + |token|
            && forall q :: |head| + |token| <= q < |text| ==> !IsWordChar(text[q])
  {
    var text := head + (token + tail);
    forall q | |head| <= q < |head| + |token| ensures InToken(text[q]) {
      assert text[q] == token[q - |head|] && text[q] in token;
    }
    SkipUnique(text, |head|, InToken, |head| + |token|);
  }

  lemma TailHasNoValue(text: string, end: nat, key: string)
    requires IsKey(key) && end <= |text| && forall q :: end <= q < |text| ==> !IsWordChar(text[q])
    ensures NoValue(text, end, |text|, key)
  {
    forall p: nat | end <= p < |text| ensures !HasValue(text, key, p) {
      assert !IsWordChar(text[p]);
      if MatchesAt(text, key, p) {
        WordCharOfMatch(text, key, p);
      }
    }
  }

  /** Once the token is the mask, the passes for other keys leave it. */
  lemma MaskPass(
    head: string, front: string, key: string, gap: string, sep: char, space: string, tail: string, i: nat, j: nat)
    requires Heads(head, front, key, gap, sep, space) && IsTail(tail)
    requires i < |KEYS| && Spells(key, KEYS[i]) && j < |KEYS| && i != j
    ensures MaskAssignments(head + (MASK + tail), KEYS[j]) == head + (MASK + tail)
  {
    KeysAreKeys();
    var b := MASK + tail;
    var text := head + b;
    HeadAssigns(head, front, key, gap, sep, space, b);
    HeadEnds(head, front, key, gap, sep, space);
    HeadWord(text, front, key, gap, sep, space, b, i);
    BehindPiece(head, b);
    forall p: nat | p < |text| ensures !HasValue(text, KEYS[j], p) {
      NoOtherValue(text, |front|, |front| + |key|, head, tail, i, j, p);
    }
    NoValueIsFound(text, 0, KEYS[j]);
    assert text[0..] == text;
  }

  lemma NoOtherValue(text: string, from: nat, to: nat, head: string, tail: string, i: nat, j: nat, p: nat)
    requires IsHeadWord(text, from, to, |head|, i) && j < |KEYS| && i != j && IsTail(tail)
    requires text == head + (MASK + tail) && Behind(text, |head|, MASK + tail)
    ensures !HasValue(text, KEYS[j], p)
  {
    KeysAreKeys();
    if p >= |head| {
      KeyBehind(text, |head|, MASK + tail, KEYS[j], p - |head|);
      NoKeyInMask(tail, KEYS[j], p - |head|);
    } else if HasValue(text, KEYS[j], p) {
      OnlyWord(text, from, to, |head|, i, j, p);
    }
  }

  lemma NoKeyInMask(tail: string, key: string, d: nat)
    requires IsKey(key) && IsTail(tail)
    ensures !KeyAt(MASK + tail, key, d)
  {
    var b := MASK + tail;
    assert forall k :: 0 <= k < 10 ==> b[k] == MASK[k];
    if d + |key| <= 10 {
      assert !MatchesAt(MASK, key, d);
    } else if d + |key| == 11 == |b| {
      assert b[10] == tail[0] && !IsWordChar(b[10]);
      if MatchesAt(b, key, d) {
        WordCharOfMatch(b, key, d);
      }
    }
  }

  lemma {:induction false} OtherPasses(
    head: string, front: string, key: string, gap: string, sep: char, space: string, token: string, tail: string,
    i: nat, j: nat)
    requires Heads(head, front, key, gap, sep, space) && IsToken(token) && IsTail(tail)
    requires j <= i < |KEYS| && Spells(key, KEYS[i]) && NonEmpty(KEYS[j..])
    ensures MaskKeys(head + (token + tail), KEYS[j..]) == head + (MASK + tail)
    decreases i - j
  {
    var keys := KEYS[j..];
    var text := head + (token + tail);
    assert keys[0] == KEYS[j] && keys[1..] == KEYS[j + 1..];
    if j == i {
      OwnPass(head, front, key, gap, sep, space, token, tail, i);
      MaskPasses(head, front, key, gap, sep, space, tail, i, j + 1);
    } else {
      var next := OtherPass(head, front, key, gap, sep, space, token, tail, i, j);
      OtherPasses(head, front, key, gap, sep, space, next, tail, i, j + 1);
    }
  }

  lemma {:induction false} MaskPasses(
    head: string, front: string, key: string, gap: string, sep: char, space: string, tail: string, i: nat, j: nat)
    requires Heads(head, front, key, gap, sep, space) && IsTail(tail)
    requires i < j <= |KEYS| && Spells(key, KEYS[i]) && NonEmpty(KEYS[j..])
    ensures MaskKeys(head + (MASK + tail), KEYS[j..]) == head + (MASK + tail)
    decreases |KEYS| - j
  {
    if j < |KEYS| {
      assert KEYS[j..][0] == KEYS[j] && KEYS[j..][1..] == KEYS[j + 1..];
      MaskPass(head, front, key, gap, sep, space, tail, i, j);
      MaskPasses(head, front, key, gap, sep, space, tail, i, j + 1);
    }
  }

  /** The characters of an assigned token and its tail. */
  lemma NoBlankBehind(token: string, tail: string)
    requires IsToken(token) && IsTail(tail)
    ensures forall c <- token + tail :: c != ' '
  {
    forall c <- token + tail ensures c != ' ' {
      assert c in token || c in tail;
    }
  }

  lemma KeyEndsWithoutR(key: string)
    requires IsSecretKey(key)
    ensures |key| > 0 && Lower(key[|key| - 1]) != 'r' && forall k :: 0 <= k < |key| ==> key[k] != ' '
  {
    SecretKeys(key);
    var i :| 0 <= i < |KEYS| && Spells(key, KEYS[i]);
    LastLetters(i);
    var last := |key| - 1;
    Letters(key[last], KEYS[i][last]);
    KeysAreWords();
    forall k | 0 <= k < |key| ensures key[k] != ' ' {
      assert KEYS[i][k] in KEYS[i] && SameLetter(key[k], KEYS[i][k]);
    }
  }

  lemma LastLetters(i: nat)
    requires i < |KEYS|
    ensures |KEYS[i]| > 0 && Lower(KEYS[i][|KEYS[i]| - 1]) != 'r'
  {
  }

  /** Behind the front, no blank follows an 'r': blanks follow the key, blanks or the separator. */
  lemma BlankNotBehindR(
    text: string, front: string, key: string, gap: string, sep: char, space: string, rest: string, q: nat)
    requires Assigns(text, front, key, gap, sep, space, rest) && (forall c <- rest :: c != ' ')
    requires |front| <= q < |text| && text[q] == ' '
    ensures q > 0 && Lower(text[q - 1]) != 'r'
  {
    var keyEnd := |front| + |key|;
    var start := keyEnd + |gap| + 1 + |space|;
    PartsByPosition(text, front, key, gap, sep, space, rest);
    KeyEndsWithoutR(key);
    assert forall k :: |front| <= k < keyEnd ==> text[k] == text[|front|..keyEnd][k - |front|];
    assert q >= keyEnd;
    forall k | start <= k < |text| ensures text[k] != ' ' {
      assert text[k] == text[start..][k - start] && rest[k - start] in rest;
    }
    if q > keyEnd {
      assert IsBlank(text[q - 1]) || text[q - 1] == sep;
    }
  }

  lemma MarkerInQuiet(text: string, front: string, p: nat)
    requires |front| <= |text| && text[..|front|] == front && MatchesAt(text, BEARER, p) && p + 7 <= |front|
    ensures HasWord(front, "bearer ")
  {
    var m := front[p..p + 7];
    forall i | 0 <= i < 7 ensures SameLetter(m[i], BEARER[i]) {
      assert m[i] == front[p + i] == text[p + i];
      Letters(m[i], BEARER[i]);
    }
    assert WordStands(front, "bearer ", p);
  }

  /** The only markers such a text could hold are those of its front. */
  lemma NoMarkerHere(
    text: string, front: string, key: string, gap: string, sep: char, space: string, rest: string, p: nat)
    requires Assigns(text, front, key, gap, sep, space, rest) && (forall c <- rest :: c != ' ')
    requires MatchesAt(text, BEARER, p)
    ensures HasWord(front, "bearer ")
  {
    PartsByPosition(text, front, key, gap, sep, space, rest);
    BearerLetters(text, p);
    assert Lower(text[p + 5]) == Lower(BEARER[5]) == 'r';
    if p + 6 >= |front| {
      BlankNotBehindR(text, front, key, gap, sep, space, rest, p + 6);
    }
    MarkerInQuiet(text, front, p);
  }

  /**
   An assignment behind a front in which there is nothing to mask: whatever the case of the key, the blanks,
   the separator and the token, the token is replaced by the mask and everything else is kept.
   */
  lemma AssignmentIsMasked(
    front: string, key: string, gap: string, sep: char, space: string, token: string, tail: string)
    requires IsSecretKey(key) && (front == "" || !InWord(front[|front| - 1])) && IsQuiet(front)
    requires (forall c <- gap :: IsAsciiBlank(c)) && (sep == ':' || sep == '=') && (forall c <- space :: IsBlank(c))
    requires IsToken(token) && IsTail(tail)
    ensures RedactText(front + key + gap + [sep] + space + token + tail)
         == front + key + gap + [sep] + space + "<redacted>" + tail
  {
    var head := front + key + gap + [sep] + space;
    assert head == head + "";
    HeadIsMasked(head, front, key, gap, sep, space, token, tail);
    Regroup(head, token, tail);
    Regroup(head, MASK, tail);
  }

  lemma HeadIsMasked(
    head: string, front: string, key: string, gap: string, sep: char, space: string, token: string, tail: string)
    requires Heads(head, front, key, gap, sep, space) && IsToken(token) && IsTail(tail)
    ensures RedactText(head + (token + tail)) == head + (MASK + tail)
  {
    var text := head + (token + tail);
    HeadAssigns(head, front, key, gap, sep, space, token + tail);
    NoBlankBehind(token, tail);
    QuietIsFixed(text, front, key, gap, sep, space, token + tail);
    SecretKeys(key);
    var i :| 0 <= i < |KEYS| && Spells(key, KEYS[i]);
    AllPasses(head, front, key, gap, sep, space, token, tail, i);
  }

  lemma AllPasses(
    head: string, front: string, key: string, gap: string, sep: char, space: string, token: string, tail: string,
    i: nat)
    requires Heads(head, front, key, gap, sep, space) && IsToken(token) && IsTail(tail)
    requires i < |KEYS| && Spells(key, KEYS[i])
    ensures MaskKeys(head + (token + tail), KEYS) == head + (MASK + tail)
  {
    assert KEYS[0..] == KEYS;
    OtherPasses(head, front, key, gap, sep, space, token, tail, i, 0);
  }

  lemma QuietIsFixed(
    text: string, front: string, key: string, gap: string, sep: char, space: string, rest: string)
    requires Assigns(text, front, key, gap, sep, space, rest) && (forall c <- rest :: c != ' ') && IsQuiet(front)
    ensures MaskBearers(text) == text
  {
    forall p: nat ensures !MatchesAt(text, BEARER, p) {
      if MatchesAt(text, BEARER, p) {
        NoMarkerHere(text, front, key, gap, sep, space, rest, p);
      }
    }
    BearerPassFixes(text);
  }

  /**
   The same in the middle of any text, between two delimiters: what stands around is redacted on its own.
   */
  lemma DelimitedAssignmentIsMasked(
    before: string, c: char, front: string, key: string, gap: string, sep: char, space: string, token: string,
    d: char, after: string)
    requires IsDelimiter(c) && IsDelimiter(d)
    requires IsSecretKey(key) && (front == "" || !InWord(front[|front| - 1])) && IsQuiet(front)
    requires (forall c <- gap :: IsAsciiBlank(c)) && (sep == ':' || sep == '=') && (forall c <- space :: IsBlank(c))
    requires IsToken(token)
    ensures RedactText(before + [c] + (front + key + gap + [sep] + space + token + [d] + after))
         == RedactText(before + [c]) + (front + key + gap + [sep] + space + "<redacted>" + [d] + RedactText(after))
  {
    var head := front + key + gap + [sep] + space;
    RedactTextSplits(before, c, head + token + [d] + after);
    RedactTextSplits(head + token, d, after);
    AssignmentIsMasked(front, key, gap, sep, space, token, [d]);
  }

  /** A bearer token behind a front in which there is nothing to mask. */
  lemma TokenIsMasked(front: string, marker: string, token: string, tail: string)
    requires IsQuiet(front) && Spells(marker, "bearer ") && IsToken(token) && IsTail(tail)
    requires forall c <- token :: c != ':' && c != '='
    ensures RedactText(front + marker + token + tail) == front + "Bearer " + "<redacted>" + tail
  {
    var text := front + marker + token + tail;
    var masked := front + "Bearer " + MASK + tail;
    QuietPass(front, marker, token, tail, text);
    NoSeparatorLeft(front, tail, masked);
    KeysAreKeys();
    forall i | 0 <= i < |KEYS| ensures KeysMasked(masked, KEYS[i], |masked|) {
      NoSeparatorNoValue(masked, KEYS[i]);
    }
    MaskKeysFix(masked, KEYS);
  }

  lemma NoSeparatorLeft(front: string, tail: string, masked: string)
    requires IsQuiet(front) && IsTail(tail) && masked == front + "Bearer " + MASK + tail
    ensures forall c <- masked :: c != ':' && c != '='
  {
    assert forall c <- "Bearer " + MASK :: c != ':' && c != '=';
    forall c <- masked ensures c != ':' && c != '=' {
      assert c in front || c in "Bearer " + MASK || c in tail;
    }
  }

  lemma NoSeparatorNoValue(text: string, key: string)
    requires forall c <- text :: c != ':' && c != '='
    ensures KeysMasked(text, key, |text|)
  {
    forall p: nat | KeyAt(text, key, p) ensures AssignmentMasked(text, p + |key|) {
      var s := SkipWhile(text, p + |key|, IsAsciiSpace);
      assert s < |text| ==> text[s] in text;
      assert SeparatorAfter(text, p + |key|) == None;
    }
  }

  lemma {:induction false} MaskKeysFix(text: string, keys: seq<string>)
    requires AreKeys(keys) && forall i :: 0 <= i < |keys| ==> KeysMasked(text, keys[i], |text|)
    ensures MaskKeys(text, keys) == text
    decreases |keys|
  {
    if keys != [] {
      KeyPassFixes(text, keys[0]);
      assert forall i :: 0 <= i < |keys| - 1 ==> keys[1..][i] == keys[i + 1];
      MaskKeysFix(text, keys[1..]);
    }
  }

  /** The bearer pass over a text with one marker. */
  lemma QuietPass(front: string, marker: string, token: string, tail: string, text: string)
    requires IsQuiet(front) && Spells(marker, "bearer ") && IsToken(token) && IsTail(tail)
    requires text == front + marker + token + tail
    ensures MaskBearers(text) == front + "Bearer " + MASK + tail
  {
    var at, end := |front|, |front| + 7 + |token|;
    FirstMarker(front, marker, token + tail, text);
    MarkedToken(front + marker, token, tail, text);
    NoMarkerInTail(text, end);
    MarkersAreFound(text, 0, Span(at, end, End));
    OneMarker(text, at, end);
    assert text[..at] == front && text[end..] == tail;
    Regroup(front, "Bearer ", MASK);
  }

  lemma OneMarker(text: string, at: nat, end: nat)
    requires at <= end <= |text| && FindBearers(text, 0) == Span(at, end, End)
    ensures MaskBearers(text) == text[..at] + ("Bearer " + MASK) + text[end..]
  {
    assert MASKED_BEARER == "Bearer " + MASK;
    assert Render(text, end, End, MASKED_BEARER) == text[end..];
    assert text[0..at] == text[..at];
  }

  lemma FirstMarker(front: string, marker: string, rest: string, text: string)
    requires IsQuiet(front) && Spells(marker, "bearer ") && text == front + marker + rest
    ensures FirstMatch(text, 0, BEARER, |front|)
  {
    SpelledMatches(front, marker, rest, BEARER);
    BearerLetters(text, |front|);
    forall p: nat | p < |front| ensures !MatchesAt(text, BEARER, p) {
      if MatchesAt(text, BEARER, p) {
        BearerLetters(text, p);
        assert text[..|front|] == front;
        MarkerInQuiet(text, front, p);
      }
    }
  }

  lemma MarkedToken(head: string, token: string, tail: string, text: string)
    requires IsToken(token) && IsTail(tail) && text == head + token + tail
    ensures SkipWhile(text, |head|, InToken) == |head| + |token|
    ensures |text| <= |head| + |token| + 1
  {
    Regroup(head, token, tail);
    TokenEnds(head, token, tail);
  }

  lemma NoMarkerInTail(text: string, end: nat)
    requires end <= |text| <= end + 1
    ensures MarkerSpans(text, end, End)
  {
  }

  // ---------------------------------------------------------------------------------------------
  // A key inside a value
  // ---------------------------------------------------------------------------------------------

  const SWALLOWED := "password=api_key : x"
  const LOST := "password=<redacted> : x"

  /**
   Fronts have to be quiet: a key that is the value of an earlier key disappears with it, and what it is
   assigned stays.
   */
  lemma KeyInsideValueIsLost()
    ensures RedactText("password=api_key : x") == "password=<redacted> : x"
  {
    KeysAreKeys();
    KeysNamed();
    SwallowedPass();
    SwallowedLetters();
    KeyLetters();
    LetterMissing(SWALLOWED, BEARER, 0);
    BearerPassFixes(SWALLOWED);
    forall k: nat | k < 10 && k != 4 ensures Absent(SWALLOWED, KEYS[k]) && Absent(LOST, KEYS[k]) {
      LetterMissing(SWALLOWED, KEYS[k], FOREIGN[k]);
      PassKeepsKeyAbsent(SWALLOWED, KEYS[4], KEYS[k], LOST);
    }
    LetterMissing(LOST, KEYS[10], 2);
    OnlyFifthPass(SWALLOWED, KEYS, LOST);
  }

  lemma OnlyFifthPass(text: string, keys: seq<string>, last: string)
    requires |keys| == 11 && AreKeys(keys) && MaskAssignments(text, keys[4]) == last
    requires forall k: nat :: k < 10 && k != 4 ==> Absent(text, keys[k]) && Absent(last, keys[k])
    requires Absent(last, keys[10])
    ensures MaskKeys(text, keys) == last
  {
    LastPass(text, keys, 4, last);
  }

  /** A letter of each other key that the text does not hold. */
  const FOREIGN: seq<nat> := [1, 0, 1, 2, 0, 0, 2, 2, 3, 2]

  lemma KeyLetters()
    ensures forall k: nat :: k < 10 && k != 4 ==> FOREIGN[k] < |KEYS[k]| && Lower(KEYS[k][FOREIGN[k]]) in "ubcfvg"
    ensures Lower(BEARER[0]) == 'b' && Lower(KEYS[10][2]) == 'i'
  {
  }

  lemma SwallowedLetters()
    ensures forall i :: 0 <= i < |SWALLOWED| ==> Lower(SWALLOWED[i]) !in "ubcfvg"
    ensures forall i :: 0 <= i < |LOST| ==> Lower(LOST[i]) != 'i'
  {
    assert forall i :: 0 <= i < |SWALLOWED| ==> Lower(SWALLOWED[i]) == SWALLOWED[i];
  }

  lemma SwallowedPass()
    ensures MaskAssignments(SWALLOWED, "password") == LOST
  {
    var text := SWALLOWED;
    SwallowedKey(text);
    SwallowedValue(text);
    OneValue(text, "password", 0, 9, 16);
    SwallowedSlices(text);
  }

  lemma SwallowedSlices(text: string)
    requires text == SWALLOWED
    ensures text[..9] + MASK + text[16..] == LOST
  {
    assert text[..9] == "password=" && text[16..] == " : x";
    assert "password=" + MASK + " : x" == LOST;
  }

  lemma SwallowedValue(text: string)
    requires text == SWALLOWED
    ensures ValueAfter(text, 8) == Some(9) && SkipWhile(text, 9, InToken) == 16
  {
    ValueByPosition(text, 8, 8, 9);
    SkipUnique(text, 9, InToken, 16);
  }

  lemma SwallowedKey(text: string)
    requires text == SWALLOWED
    ensures FirstKey(text, 0, "password", 0) && forall p: nat :: 16 <= p ==> !KeyAt(text, "password", p)
  {
    assert forall i :: 0 <= i < 8 ==> text[i] == "password"[i];
  }
}
