/**
 For which private root redaction is idempotent. A root that hides in a placeholder damages it the second
 time; a text is constructed for each such root in which the damage stays.
 */
module RepeatedRedaction {
  import opened Wrappers
  import opened Characters
  import opened Redaction
  import opened DiagnosticRecords
  import opened PrivateRoots

  /** Redacting a record a second time changes nothing. */
  ghost predicate Idempotent(roots: seq<string>) {
    forall v :: RedactJson(RedactJson(v, roots), roots) == RedactJson(v, roots)
  }

  lemma StringShowsRepeat(text: string, root: string, once: string)
    requires RedactText(ReplaceRoot(text, root)) == once && RedactText(ReplaceRoot(once, root)) != once
    ensures !Idempotent([root])
  {
    var roots := [root];
    OneRoot(text, root);
    OneRoot(once, root);
    RedactedOnce(text, roots, ReplaceRoot(text, root), once);
    RedactedOnce(once, roots, ReplaceRoot(once, root), RedactText(ReplaceRoot(once, root)));
    var v := RedactJson(Str(text), roots);
    assert RedactJson(v, roots) != v;
  }

  lemma RedactedOnce(text: string, roots: seq<string>, replaced: string, redacted: string)
    requires ReplaceRoots(text, roots) == replaced && RedactText(replaced) == redacted
    ensures RedactJson(Str(text), roots) == Str(redacted)
  {
  }

  lemma OneRoot(text: string, root: string)
    ensures ReplaceRoots(text, [root]) == ReplaceRoot(text, root)
  {
    var next := ReplaceRoot(text, root);
    assert ReplaceRoots(next, []) == next;
    assert [root][1..] == [];
  }

  // ---------------------------------------------------------------------------------------------
  // A root that hides in the placeholder is replaced there the second time
  // ---------------------------------------------------------------------------------------------

  lemma PlaceholderChanges(root: string)
    requires NoBrackets(root) && !Absent(PROFILE, root)
    ensures ReplaceRoot(PROFILE, root) != PROFILE
  {
    assert forall i :: 1 <= i < |PROFILE| ==> PROFILE[i] != '<';
    BracketBringsChange(PROFILE, root);
  }

  lemma BracketBringsChange(text: string, root: string)
    requires |text| > 0 && text[0] == '<' && forall i :: 1 <= i < |text| ==> text[i] != '<'
    requires NoBrackets(root) && !Absent(text, root)
    ensures ReplaceRoot(text, root) != text
  {
    FindFromIsFirst(text, root, 0);
    var at := FindFrom(text, root, 0).value;
    assert Lower(text[at + 0]) == Lower(root[0]);
    ReplaceUnfolds(text, 0, root, at);
    assert ReplaceRoot(text, root)[at] == '<';
  }

  lemma PlaceholderGrows(root: string)
    requires NoBrackets(root) && !Absent(PROFILE, root)
    ensures !Idempotent([root])
  {
    ReplaceWhole(root);
    PlaceholderChanges(root);
    PlaceholderIsPlain();
    ReplacementStaysPlain(PROFILE, root);
    PlainIsFixed(PROFILE);
    PlainIsFixed(ReplaceRoot(PROFILE, root));
    StringShowsRepeat(root, root, PROFILE);
  }

  // ---------------------------------------------------------------------------------------------
  // A key that is the value of another one leaves a mask that stands behind no key
  // ---------------------------------------------------------------------------------------------

  const OUTER := "signing_key"
  const REPEATED := "signing_key=" + MASK + (" " + MASK)

  /** Keys that do not occur are passed over. */
  lemma {:induction false} PassesSkip(text: string, keys: seq<string>, n: nat)
    requires n <= |keys| && NonEmpty(keys) && forall i :: 0 <= i < n ==> Absent(text, keys[i])
    ensures NonEmpty(keys[n..]) && MaskKeys(text, keys) == MaskKeys(text, keys[n..])
    decreases n
  {
    if n == 0 {
      assert keys[0..] == keys;
    } else {
      KeyPassFixes(text, keys[0]);
      PassesSkip(text, keys[1..], n - 1);
      assert keys[1..][n - 1..] == keys[n..];
    }
  }

  /** A pass over a text with one assignment. */
  lemma OneValue(text: string, key: string, at: nat, start: nat, end: nat)
    requires |key| > 0 && FirstKey(text, 0, key, at) && ValueAfter(text, at + |key|) == Some(start)
    requires start <= end <= |text| && SkipWhile(text, start, InToken) == end
    requires forall p: nat :: end <= p ==> !KeyAt(text, key, p)
    ensures MaskAssignments(text, key) == text[..start] + MASK + text[end..]
  {
    OneFound(text, key, at, start);
    NoneFound(text, key, end);
    var rest := FindValues(text, end, key);
    assert rest == End;
    assert FindValues(text, 0, key) == Span(start, end, rest);
    ValuesWithin(text, 0, key);
    assert Render(text, end, rest, MASK) == text[end..];
    assert text[0..start] == text[..start];
  }

  lemma OneFound(text: string, key: string, at: nat, start: nat)
    requires |key| > 0 && FirstKey(text, 0, key, at) && ValueAfter(text, at + |key|) == Some(start)
    ensures FindValue(text, 0, key) == Some(start)
  {
    FindKeyUnique(text, key, 0, at);
  }

  lemma NoneFound(text: string, key: string, end: nat)
    requires |key| > 0 && end <= |text| && forall p: nat :: end <= p ==> !KeyAt(text, key, p)
    ensures FindValue(text, end, key) == None && FindValues(text, end, key) == End
  {
    NoKeyFound(text, key, end);
  }

  /** An assignment to a key that is the value of another one. */
  function Nested(inner: string, value: string): string {
    "signing_key=" + inner + "= " + value
  }

  predicate IsInner(inner: string) {
    inner == "secret" || inner == "password"
  }

  lemma NestedChars(inner: string, value: string)
    ensures var text, n := Nested(inner, value), |inner|;
            && |text| == 14 + n + |value| && text[..12] == "signing_key=" && text[12 + n] == '='
            && text[13 + n] == ' ' && text[14 + n..] == value && forall k :: 0 <= k < n ==> text[12 + k] == inner[k]
  {
  }

  lemma InnerIsFirst(inner: string, value: string)
    requires IsInner(inner)
    ensures FirstKey(Nested(inner, value), 0, inner, 12)
  {
    var text := Nested(inner, value);
    NestedChars(inner, value);
    assert forall q :: 0 <= q < 12 ==> text[q] == "signing_key="[q];
    forall q: nat | q < 12 ensures !MatchesAt(text, inner, q) {
      if q + |inner| <= |text| {
        assert Lower(text[q + 0]) != Lower(inner[0]) || Lower(text[q + 1]) != Lower(inner[1]);
      }
    }
  }

  lemma InnerPass(inner: string)
    requires IsInner(inner)
    ensures MaskAssignments(Nested(inner, "x"), inner) == Nested(inner, MASK)
  {
    var text, n := Nested(inner, "x"), |inner|;
    NestedChars(inner, "x");
    InnerIsFirst(inner, "x");
    assert text[14 + n] == text[14 + n..][0] == 'x';
    SkipUnique(text, 12 + n, IsAsciiSpace, 12 + n);
    SkipUnique(text, 13 + n, IsSpace, 14 + n);
    SkipUnique(text, 14 + n, InToken, 15 + n);
    OneValue(text, inner, 12, 14 + n, 15 + n);
    assert text[..14 + n] == "signing_key=" + inner + "= ";
  }

  lemma StartsOuter(text: string)
    requires |text| > 12 && text[..12] == "signing_key="
    ensures text[11] == '=' && KeyAt(text, OUTER, 0)
  {
    assert forall q :: 0 <= q < 12 ==> text[q] == text[..12][q] == "signing_key="[q];
  }

  lemma NoLaterOuter(text: string)
    requires forall i :: 12 <= i < |text| ==> text[i] != '_'
    ensures forall p: nat :: 12 <= p ==> !KeyAt(text, OUTER, p)
  {
    assert OUTER[7] == '_';
    forall p: nat | 12 <= p ensures !KeyAt(text, OUTER, p) {
      if p + 11 <= |text| {
        assert Lower(text[p + 7]) != Lower(OUTER[7]);
      }
    }
  }

  /** The pass over a text that begins with its only assignment. */
  lemma OuterPass(text: string, end: nat)
    requires |text| > 12 && text[..12] == "signing_key=" && !IsSpace(text[12])
    requires forall i :: 12 <= i < |text| ==> text[i] != '_'
    requires 12 <= end <= |text| && SkipWhile(text, 12, InToken) == end
    ensures MaskAssignments(text, OUTER) == "signing_key=" + MASK + text[end..]
  {
    StartsOuter(text);
    NoLaterOuter(text);
    assert text[11] == '=' && |OUTER| == 11;
    SkipUnique(text, 11, IsAsciiSpace, 11);
    SkipUnique(text, 12, IsSpace, 12);
    OneValue(text, OUTER, 0, 12, end);
  }

  lemma InnerChars(inner: string)
    requires IsInner(inner)
    ensures forall k :: 0 <= k < |inner| ==> InToken(inner[k]) && inner[k] != '_'
  {
  }

  lemma NestedTailChars(inner: string, text: string)
    requires IsInner(inner) && text == Nested(inner, MASK)
    ensures 13 + |inner| < |text| && forall k :: 12 <= k < 13 + |inner| ==> InToken(text[k])
    ensures forall k :: 12 <= k < |text| ==> text[k] != '_'
  {
    var n := |inner|;
    NestedChars(inner, MASK);
    InnerChars(inner);
    assert forall c <- MASK :: c != '_';
    forall k | 12 <= k < |text| ensures text[k] != '_' && (k < 13 + n ==> InToken(text[k])) {
      if k < 12 + n {
        assert text[12 + (k - 12)] == inner[k - 12];
      } else if 14 + n <= k {
        assert text[k] == text[14 + n..][k - 14 - n] && text[k] in MASK;
      }
    }
  }

  lemma NestedTail(inner: string, text: string)
    requires IsInner(inner) && text == Nested(inner, MASK)
    ensures text[..12] == "signing_key=" && 13 + |inner| < |text| && !IsSpace(text[12])
    ensures SkipWhile(text, 12, InToken) == 13 + |inner| && text[13 + |inner|..] == " " + MASK
  {
    var n := |inner|;
    NestedChars(inner, MASK);
    NestedTailChars(inner, text);
    SkipUnique(text, 12, InToken, 13 + n);
    assert InToken(text[12]);
  }

  lemma NestedOuterPass(inner: string)
    requires IsInner(inner)
    ensures MaskAssignments(Nested(inner, MASK), OUTER) == REPEATED
  {
    var text := Nested(inner, MASK);
    NestedTail(inner, text);
    NestedTailChars(inner, text);
    OuterPass(text, 13 + |inner|);
  }

  /** The next pass that finds something. */
  lemma PassStep(text: string, keys: seq<string>, i: nat, next: string)
    requires i < |keys| && NonEmpty(keys) && forall k :: 0 <= k < i ==> Absent(text, keys[k])
    requires MaskAssignments(text, keys[i]) == next
    ensures NonEmpty(keys[i + 1..]) && MaskKeys(text, keys) == MaskKeys(next, keys[i + 1..])
  {
    PassesSkip(text, keys, i);
    assert keys[i..][0] == keys[i] && keys[i..][1..] == keys[i + 1..];
  }

  lemma LastPass(text: string, keys: seq<string>, i: nat, last: string)
    requires i < |keys| && NonEmpty(keys) && forall k :: 0 <= k < i ==> Absent(text, keys[k])
    requires MaskAssignments(text, keys[i]) == last && forall k :: i < k < |keys| ==> Absent(last, keys[k])
    ensures MaskKeys(text, keys) == last
  {
    PassStep(text, keys, i, last);
    var rest := keys[i + 1..];
    assert forall k :: 0 <= k < |rest| ==> rest[k] == keys[i + 1 + k];
    PassesSkip(last, rest, |rest|);
  }

  lemma TwoPasses(text: string, keys: seq<string>, i: nat, next: string, j: nat, last: string)
    requires i < j < |keys| && NonEmpty(keys)
    requires MaskAssignments(text, keys[i]) == next && MaskAssignments(next, keys[j]) == last
    requires forall k :: 0 <= k < i ==> Absent(text, keys[k])
    requires forall k :: i < k < j ==> Absent(next, keys[k])
    requires forall k :: j < k < |keys| ==> Absent(last, keys[k])
    ensures MaskKeys(text, keys) == last
  {
    PassStep(text, keys, i, next);
    var rest := keys[i + 1..];
    assert forall k :: 0 <= k < |rest| ==> rest[k] == keys[i + 1 + k];
    LastPass(next, rest, j - (i + 1), last);
  }

  /** Which letter of each key does not occur in the nested text. */
  function NestedMissing(inner: string): seq<nat> {
    if inner == "secret" then [1, 0, 8, 2, 0, 1, 7, 0, 0] else [1, 0, 1, 2, 0, 0, 2, 2, 3]
  }

  function MissingLetters(inner: string): string {
    if inner == "secret" then "ubofpl" else "ubcflv"
  }

  /** The keys in front of the outer one, without the inner one. */
  predicate IsOther(inner: string, i: nat) {
    i < 9 && i != (if inner == "secret" then 7 else 4)
  }

  lemma PiecesLackLetters(inner: string)
    requires IsInner(inner)
    ensures forall c <- "signing_key= x" :: Lower(c) !in MissingLetters(inner)
    ensures forall c <- inner :: Lower(c) !in MissingLetters(inner)
  {
    assert forall c <- "signing_key= x" :: Lower(c) == c;
    if inner == "secret" {
      SecretPieces();
    } else {
      PasswordPieces();
    }
  }

  lemma SecretPieces()
    ensures forall c <- "signing_key= x" :: c !in "ubofpl"
    ensures forall c <- "secret" :: Lower(c) !in "ubofpl"
  {
    assert forall c <- "secret" :: Lower(c) == c;
  }

  lemma PasswordPieces()
    ensures forall c <- "signing_key= x" :: c !in "ubcflv"
    ensures forall c <- "password" :: Lower(c) !in "ubcflv"
  {
    assert forall c <- "password" :: Lower(c) == c;
  }

  lemma NestedLacksLetters(inner: string)
    requires IsInner(inner)
    ensures forall i :: 0 <= i < |Nested(inner, "x")| ==> Lower(Nested(inner, "x")[i]) !in MissingLetters(inner)
  {
    var text, n := Nested(inner, "x"), |inner|;
    NestedChars(inner, "x");
    PiecesLackLetters(inner);
    forall i | 0 <= i < |text| ensures text[i] in "signing_key= x" || text[i] in inner {
      if i < 12 {
        assert text[i] == text[..12][i];
      } else if i < 12 + n {
        assert text[12 + (i - 12)] == inner[i - 12];
      }
    }
  }

  lemma OthersHaveLetters(inner: string)
    requires IsInner(inner)
    ensures forall i: nat :: IsOther(inner, i) ==> NestedMissing(inner)[i] < |KEYS[i]|
    ensures forall i: nat :: IsOther(inner, i) ==> Lower(KEYS[i][NestedMissing(inner)[i]]) in MissingLetters(inner)
    ensures Lower(BEARER[0]) in MissingLetters(inner)
  {
    if inner == "secret" {
    } else {
    }
  }

  lemma NestedLacksOthers(inner: string)
    requires IsInner(inner)
    ensures Absent(Nested(inner, "x"), BEARER)
    ensures forall i: nat :: IsOther(inner, i) ==> Absent(Nested(inner, "x"), KEYS[i])
  {
    NestedLacksLetters(inner);
    OthersHaveLetters(inner);
    LetterMissing(Nested(inner, "x"), BEARER, 0);
    forall i: nat | IsOther(inner, i) ensures Absent(Nested(inner, "x"), KEYS[i]) {
      LetterMissing(Nested(inner, "x"), KEYS[i], NestedMissing(inner)[i]);
    }
  }

  lemma KeyIsRootLike(key: string)
    requires IsKey(key)
    ensures NoBrackets(key) && Absent(MASK, key)
  {
    forall i | 0 <= i < |key| ensures key[i] != '<' && key[i] != '>' {
      assert key[i] in key;
    }
  }

  lemma PassKeepsKeyAbsent(text: string, key: string, other: string, next: string)
    requires IsKey(key) && IsKey(other) && Absent(text, other) && next == MaskAssignments(text, key)
    ensures Absent(next, other)
  {
    KeyIsRootLike(other);
    KeyPassKeepsAbsent(text, key, other);
  }

  lemma BearersSkip(text: string)
    requires Absent(text, BEARER)
    ensures MaskBearers(text) == text
  {
    BearerPassFixes(text);
  }

  lemma RepeatedLetters()
    ensures forall i :: 0 <= i < |REPEATED| ==> Lower(REPEATED[i]) !in "bp" && (12 <= i ==> REPEATED[i] != '_')
    ensures |REPEATED| == 33 && REPEATED[..12] == "signing_key=" && REPEATED[12] == '<' && REPEATED[22..] == " " + MASK
  {
    assert forall c <- MASK :: Lower(c) == c && c !in "bp_";
    assert forall c <- "signing_key=" :: Lower(c) == c && c !in "bp";
    forall i | 0 <= i < |REPEATED|
      ensures REPEATED[i] == ' ' || REPEATED[i] in MASK || (i < 12 && REPEATED[i] in "signing_key=")
    {
      if i < 12 {
        assert REPEATED[i] == "signing_key="[i];
      } else if i < 22 {
        assert REPEATED[i] == MASK[i - 12];
      } else if i > 22 {
        assert REPEATED[i] == MASK[i - 23];
      }
    }
  }

  /** The passes in front of the outer key's leave the nested text without any other key. */
  lemma NestedIsRepeated(inner: string, i: nat)
    requires IsInner(inner) && i == (if inner == "secret" then 7 else 4)
    ensures RedactText(Nested(inner, "x")) == REPEATED
    ensures forall k: nat :: IsOther(inner, k) ==> Absent(REPEATED, KEYS[k])
  {
    var text, mid := Nested(inner, "x"), Nested(inner, MASK);
    KeysAreKeys();
    KeysNamed();
    NestedLacksOthers(inner);
    BearersSkip(text);
    InnerPass(inner);
    NestedOuterPass(inner);
    forall k: nat | IsOther(inner, k) ensures Absent(mid, KEYS[k]) && Absent(REPEATED, KEYS[k]) {
      PassKeepsKeyAbsent(text, inner, KEYS[k], mid);
      PassKeepsKeyAbsent(mid, OUTER, KEYS[k], REPEATED);
    }
    RepeatedLacksApiKey();
    TwoPasses(text, KEYS, i, mid, 9, REPEATED);
  }

  lemma KeysNamed()
    ensures |KEYS| == 11 && KEYS[4] == "password" && KEYS[7] == "secret" && KEYS[9] == OUTER
  {
  }

  lemma RepeatedLacksApiKey()
    ensures Absent(REPEATED, KEYS[10]) && Absent(REPEATED, KEYS[4]) && Absent(REPEATED, BEARER)
  {
    RepeatedLetters();
    LetterMissing(REPEATED, KEYS[10], 1);
    LetterMissing(REPEATED, KEYS[4], 0);
    LetterMissing(REPEATED, BEARER, 0);
  }

  lemma RepeatedLacksOthers(i: nat)
    requires i < |KEYS| && i != 9
    ensures Absent(REPEATED, KEYS[i])
  {
    RepeatedLacksApiKey();
    if i != 4 && i != 10 {
      NestedIsRepeated("password", 4);
      assert IsOther("password", i);
    }
  }

  // ---------------------------------------------------------------------------------------------
  // A root that hides in the mask damages that mask, and no pass repairs it
  // ---------------------------------------------------------------------------------------------

  /** A nested assignment in which the root does not occur. */
  lemma NestedAvoids(root: string) returns (inner: string)
    requires NoBrackets(root) && Absent(PROFILE, root) && !Absent(MASK, root)
    ensures IsInner(inner) && Absent(Nested(inner, "x"), root)
  {
    if |root| == 1 && Lower(root[0]) in "da" {
      inner := "secret";
      SecretLetters();
      LetterMissing(Nested(inner, "x"), root, 0);
    } else {
      inner := "password";
      PasswordLetters();
      PasswordPairs();
      if |root| == 1 {
        OneLetter(root);
      }
      AvoidsRoot(Nested(inner, "x"), root, "ct");
    }
  }

  lemma SecretLetters()
    ensures forall i :: 0 <= i < |Nested("secret", "x")| ==> Lower(Nested("secret", "x")[i]) !in "da"
  {
    var text := Nested("secret", "x");
    assert text == "signing_key=secret= x";
    assert forall i :: 0 <= i < |text| ==> Lower(text[i]) == text[i];
  }

  lemma PasswordText()
    ensures var text := Nested("password", "x");
            text == "signing_key=password= x" && forall i :: 0 <= i < |text| ==> Lower(text[i]) == text[i]
  {
    var text := Nested("password", "x");
    assert text == "signing_key=password= x";
  }

  lemma PasswordLetters()
    ensures forall i :: 0 <= i < |Nested("password", "x")| ==> Lower(Nested("password", "x")[i]) !in "ct"
  {
    PasswordText();
  }

  lemma PasswordPairs()
    ensures SharesNoPair(Nested("password", "x"))
  {
    PasswordText();
    var text := "signing_key=password= x";
    assert forall q :: 0 <= q < |text| - 1 ==> !MaskPair(text[q], text[q + 1]);
  }

  /** Replacing starts no earlier than the root occurs. */
  lemma ReplaceSkips(text: string, n: nat, root: string)
    requires n <= |text| && |root| > 0 && forall q: nat :: q < n ==> !MatchesAt(text, root, q)
    ensures ReplaceRoot(text, root) == text[..n] + ReplaceRest(text, n, root)
  {
    SameFirst(text, n, root);
    match FindFrom(text, root, n)
    case None =>
      ReplaceEnds(text, n, root);
      ReplaceEnds(text, 0, root);
      assert text[0..] == text[..n] + text[n..];
    case Some(at) =>
      ReplaceUnfolds(text, n, root, at);
      ReplaceUnfolds(text, 0, root, at);
      JoinFront(text, n, at, PROFILE, ReplaceRest(text, at + |root|, root));
  }

  lemma SameFirst(text: string, n: nat, root: string)
    requires n <= |text| && forall q: nat :: q < n ==> !MatchesAt(text, root, q)
    ensures FindFrom(text, root, n) == FindFrom(text, root, 0)
  {
    FindFromIsFirst(text, root, 0);
    FindFromIsFirst(text, root, n);
  }

  lemma JoinFront(text: string, n: nat, at: nat, mark: string, rest: string)
    requires n <= at <= |text|
    ensures text[0..at] + mark + rest == text[..n] + (text[n..at] + mark + rest)
  {
    assert text[0..at] == text[..n] + text[n..at];
    Regroup(text[..n], text[n..at], mark);
    Regroup(text[..n], text[n..at] + mark, rest);
  }

  /** The second run sees the damaged masks behind the key, and nothing else changed. */
  lemma RepeatedReplaced(root: string, again: string)
    requires NoBrackets(root) && Absent(PROFILE, root) && !Absent(MASK, root) && again == ReplaceRoot(REPEATED, root)
    ensures |again| > 12 && again[..12] == "signing_key=" && again[12] == '<'
    ensures forall i :: 12 <= i < |again| ==> again[i] != '_'
  {
    RepeatedLetters();
    WitnessAvoids(root);
    assert WITNESS[..12] == "signing_key=";
    forall q: nat | q < 13 ensures !MatchesAt(REPEATED, root, q) {
      NoneBeforeBracket(WITNESS, REPEATED, 12, root, q);
    }
    assert forall c <- PROFILE :: c != '_';
    TailReplaced(REPEATED, 12, root, '_', again);
  }

  /** Replacing behind a bracket keeps what stands in front and brings no foreign character. */
  lemma TailReplaced(text: string, n: nat, root: string, c: char, again: string)
    requires n < |text| && |root| > 0 && forall q: nat :: q < n + 1 ==> !MatchesAt(text, root, q)
    requires c !in PROFILE && (forall i :: n <= i < |text| ==> text[i] != c) && again == ReplaceRoot(text, root)
    ensures |again| > n && again[..n] == text[..n] && again[n] == text[n]
    ensures forall i :: n <= i < |again| ==> again[i] != c
  {
    ReplaceSkips(text, n + 1, root);
    OccurrencesWithin(text, n + 1, root);
    RenderChars(text, n + 1, FindOccurrences(text, n + 1, root), PROFILE);
    var rest := ReplaceRest(text, n + 1, root);
    assert again == text[..n + 1] + rest;
    forall i | n <= i < |again| ensures again[i] != c {
      if i > n {
        assert again[i] == rest[i - (n + 1)] && rest[i - (n + 1)] in rest;
      }
    }
  }

  /** What is absent from a text does not stand in front of a bracket in another text that starts like it. */
  lemma NoneBeforeBracket(known: string, text: string, n: nat, root: string, q: nat)
    requires n <= |known| && n < |text| && known[..n] == text[..n] && text[n] == '<'
    requires NoBrackets(root) && Absent(known, root) && q <= n
    ensures !MatchesAt(text, root, q)
  {
    if q + |root| <= n {
      assert forall i :: 0 <= i < n ==> text[i] == text[..n][i] == known[i];
      assert !MatchesAt(known, root, q);
    } else if q + |root| <= |text| {
      assert Lower(text[q + (n - q)]) != Lower(root[n - q]);
    }
  }

  /** The mask that stands behind no key stays damaged. */
  lemma DamageStays(root: string, again: string)
    requires NoBrackets(root) && Absent(PROFILE, root) && !Absent(MASK, root) && again == ReplaceRoot(REPEATED, root)
    ensures RedactText(again) != REPEATED
  {
    RepeatedReplaced(root, again);
    ReplaceLeavesNone(REPEATED, root);
    SkipRun(again, 12, InToken);
    var end := SkipWhile(again, 12, InToken);
    OuterPass(again, end);
    var last := "signing_key=" + MASK + again[end..];
    OnlyOuterPass(root, again, last);
    NoMaskAtEnd(again, end, root);
    if last == REPEATED {
      TailsAgree("signing_key=" + MASK, again[end..], " " + MASK);
      assert false;
    }
  }

  lemma NoMaskAtEnd(text: string, end: nat, root: string)
    requires end <= |text| && Absent(text, root) && !Absent(MASK, root)
    ensures text[end..] != " " + MASK
  {
    if text[end..] == " " + MASK {
      assert text == (text[..end] + " ") + MASK + "";
      PartBringsRoot(text, MASK, root);
    }
  }

  lemma TailsAgree(a: string, b: string, c: string)
    requires a + b == a + c
    ensures b == c
  {
    assert b == (a + b)[|a|..] && c == (a + c)[|a|..];
  }

  lemma OnlyOuterPass(root: string, again: string, last: string)
    requires again == ReplaceRoot(REPEATED, root) && MaskAssignments(again, OUTER) == last
    ensures RedactText(again) == last
  {
    KeysAreKeys();
    KeysNamed();
    forall i: nat | i < |KEYS| && i != 9 ensures Absent(again, KEYS[i]) && Absent(last, KEYS[i]) {
      RepeatedLacksOthers(i);
      KeyAvoidsPlaceholder(i);
      KeyIsRootLike(KEYS[i]);
      ReplaceKeepsAbsent(REPEATED, root, KEYS[i]);
      PassKeepsKeyAbsent(again, OUTER, KEYS[i], last);
    }
    RepeatedLacksApiKey();
    MarkerAvoidsPlaceholder();
    ReplaceKeepsAbsent(REPEATED, root, BEARER);
    BearersSkip(again);
    LastPass(again, KEYS, 9, last);
  }

  lemma KeyAvoidsPlaceholder(i: nat)
    requires i < |KEYS|
    ensures Absent(PROFILE, KEYS[i])
  {
    KeysAreNotPlain();
    PlaceholderIsPlain();
    PlainLacks(PROFILE, KEYS[i], MISSING[i]);
  }

  lemma MarkerAvoidsPlaceholder()
    ensures NoBrackets(BEARER) && Absent(PROFILE, BEARER)
  {
    KeysAreNotPlain();
    PlaceholderIsPlain();
    PlainLacks(PROFILE, BEARER, 0);
  }

  lemma MaskDamaged(root: string)
    requires NoBrackets(root) && Absent(PROFILE, root) && !Absent(MASK, root)
    ensures !Idempotent([root])
  {
    var inner := NestedAvoids(root);
    NestedIsRepeated(inner, if inner == "secret" then 7 else 4);
    AbsentRootIsFixed(Nested(inner, "x"), root);
    DamageStays(root, ReplaceRoot(REPEATED, root));
    StringShowsRepeat(Nested(inner, "x"), root, REPEATED);
  }

  /**
   Redaction with one root without angle brackets is idempotent, on strings and on whole records, exactly
   when neither placeholder holds the root.
   */
  lemma RedactionIdempotentExactly(root: string)
    requires NoBrackets(root)
    ensures Idempotent([root]) <==> IsPrivateRoot(root)
  {
    if !Absent(PROFILE, root) {
      PlaceholderGrows(root);
    } else if !Absent(MASK, root) {
      MaskDamaged(root);
    } else {
      forall v ensures RedactJson(RedactJson(v, [root]), [root]) == RedactJson(v, [root]) {
        RedactJsonIdempotent(v, [root]);
      }
    }
  }
}
