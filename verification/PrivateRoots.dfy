/**
 Which private roots redaction keeps out for good: exactly for which roots no redacted string holds one
 of them.
 */
module PrivateRoots {
  import opened Wrappers
  import opened Characters
  import opened Redaction
  import opened DiagnosticRecords

  // ---------------------------------------------------------------------------------------------
  // Texts without keys
  // ---------------------------------------------------------------------------------------------

  lemma LetterMissing(text: string, needle: string, k: nat)
    requires k < |needle| && forall i :: 0 <= i < |text| ==> Lower(text[i]) != Lower(needle[k])
    ensures Absent(text, needle)
  {
    forall p: nat ensures !MatchesAt(text, needle, p) {
      if p + |needle| <= |text| {
        assert Lower(text[p + k]) != Lower(needle[k]);
      }
    }
  }

  /** A letter of each key that does not occur in the placeholder. */
  const MISSING: seq<nat> := [0, 0, 0, 6, 1, 0, 2, 2, 3, 2, 0]

  /** Only letters and signs of the placeholder, in any case. */
  ghost predicate IsPlain(text: string) {
    forall i :: 0 <= i < |text| ==> Lower(text[i]) in PROFILE
  }

  lemma PlaceholderIsPlain()
    ensures IsPlain(PROFILE)
  {
    assert forall c <- PROFILE :: Lower(c) in PROFILE;
  }

  lemma PlainLacks(text: string, needle: string, k: nat)
    requires IsPlain(text) && k < |needle| && Lower(needle[k]) !in PROFILE
    ensures Absent(text, needle)
  {
    LetterMissing(text, needle, k);
  }

  lemma KeysAreNotPlain()
    ensures Lower(BEARER[0]) !in PROFILE
    ensures forall i :: 0 <= i < |KEYS| ==> MISSING[i] < |KEYS[i]| && Lower(KEYS[i][MISSING[i]]) !in PROFILE
  {
  }

  lemma PlainIsFixed(text: string)
    requires IsPlain(text)
    ensures RedactText(text) == text
  {
    KeysAreNotPlain();
    PlainLacks(text, BEARER, 0);
    forall i | 0 <= i < |KEYS| ensures KeysMasked(text, KEYS[i], |text|) {
      PlainLacks(text, KEYS[i], MISSING[i]);
    }
    RedactedIsFixed(text);
  }

  // ---------------------------------------------------------------------------------------------
  // What a replacement leaves behind
  // ---------------------------------------------------------------------------------------------

  lemma PartBringsRoot(text: string, part: string, root: string)
    requires Holds(text, part) && !Absent(part, root)
    ensures !Absent(text, root)
  {
    var a, b :| text == a + part + b;
    var p: nat :| MatchesAt(part, root, p);
    forall i | 0 <= i < |root| ensures Lower(text[|a| + p + i]) == Lower(root[i]) {
      assert text[|a| + p + i] == part[p + i];
    }
    assert MatchesAt(text, root, |a| + p);
  }

  lemma ReplacementLeavesPlaceholder(text: string, root: string)
    ensures ReplaceRoot(text, root) == text || Holds(ReplaceRoot(text, root), PROFILE)
  {
    if root != "" {
      match FindFrom(text, root, 0)
      case None =>
        ReplaceEnds(text, 0, root);
        assert text[0..] == text;
      case Some(at) =>
        ReplaceUnfolds(text, 0, root, at);
        HoldsInside(text[0..at], PROFILE, ReplaceRest(text, at + |root|, root));
    }
  }

  lemma {:induction false} RenderChars(text: string, n: nat, spans: Spans, mark: string)
    requires Within(text, n, spans)
    ensures forall c <- Render(text, n, spans, mark) :: c in text[n..] || c in mark
    decreases spans
  {
    match spans
    case End =>
    case Span(start, end, rest) => RenderChars(text, end, rest, mark);
  }

  lemma ReplacedChars(text: string, root: string)
    ensures forall c <- ReplaceRoot(text, root) :: c in text || c in PROFILE
  {
    if root != "" {
      OccurrencesWithin(text, 0, root);
      RenderChars(text, 0, FindOccurrences(text, 0, root), PROFILE);
    }
  }

  lemma ReplacementStaysPlain(text: string, root: string)
    requires IsPlain(text)
    ensures IsPlain(ReplaceRoot(text, root))
  {
    ReplacedChars(text, root);
    var t := ReplaceRoot(text, root);
    assert forall c <- PROFILE :: Lower(c) in PROFILE;
    forall i | 0 <= i < |t| ensures Lower(t[i]) in PROFILE {
      assert t[i] in t;
    }
  }

  lemma {:induction false} ReplacementsStayPlain(text: string, roots: seq<string>)
    requires IsPlain(text)
    ensures IsPlain(ReplaceRoots(text, roots))
    decreases |roots|
  {
    if roots != [] {
      ReplacementStaysPlain(text, roots[0]);
      ReplacementsStayPlain(ReplaceRoot(text, roots[0]), roots[1..]);
    }
  }

  /** A text that is one of the roots, or already holds the placeholder, ends up holding the placeholder. */
  lemma {:induction false} RootLeavesPlaceholder(text: string, roots: seq<string>)
    requires Holds(text, PROFILE) || (text in roots && text != "")
    ensures Holds(ReplaceRoots(text, roots), PROFILE)
    decreases |roots|
  {
    if roots != [] {
      ReplacementLeavesPlaceholder(text, roots[0]);
      if text == roots[0] && text != "" {
        ReplaceWhole(text);
        assert PROFILE == "" + PROFILE + "";
      }
      RootLeavesPlaceholder(ReplaceRoot(text, roots[0]), roots[1..]);
    }
  }

  // ---------------------------------------------------------------------------------------------
  // For which roots no redacted string holds one of them
  // ---------------------------------------------------------------------------------------------

  ghost predicate RootFree(text: string, roots: seq<string>) {
    forall i :: 0 <= i < |roots| ==> Absent(text, roots[i])
  }

  /** No redacted string holds a root. */
  ghost predicate RemovesRoots(roots: seq<string>) {
    forall text :: RootFree(RedactString(text, roots), roots)
  }

  /** The least there is to mask: a marker, or a key with its separator, and nothing behind them. */
  ghost predicate IsBare(text: string) {
    || text == BEARER
    || exists i: nat, s: nat :: BareAssignment(text, i, s)
  }

  ghost predicate BareAssignment(text: string, i: nat, s: nat) {
    && i < |KEYS| && |KEYS[i]| <= s && |text| == s + 1
    && text[..|KEYS[i]|] == KEYS[i] && IsSeparator(text[s])
    && forall k :: |KEYS[i]| <= k < s ==> IsAsciiSpace(text[k])
  }

  /** The roots leave redaction nothing to mask: they cut through every marker and every assignment. */
  ghost predicate NothingToMask(roots: seq<string>) {
    forall text :: IsBare(text) ==> !RootFree(text, roots)
  }

  lemma BareIsNotRedacted(text: string)
    requires IsBare(text)
    ensures !Redacted(text)
  {
    if text == BEARER {
      assert MatchesAt(text, BEARER, 0) && !BearerMasked(text, 0);
    } else {
      var i: nat, s: nat :| BareAssignment(text, i, s);
      BareIsNotMasked(text, KEYS[i], s);
    }
  }

  lemma BareIsNotMasked(text: string, key: string, s: nat)
    requires |key| <= s && |text| == s + 1 && text[..|key|] == key
    requires (forall k :: |key| <= k < s ==> IsAsciiSpace(text[k])) && IsSeparator(text[s])
    ensures !KeysMasked(text, key, |text|)
  {
    assert forall k :: 0 <= k < |key| ==> text[k] == text[..|key|][k];
    assert forall c :: IsAsciiSpace(c) || IsSeparator(c) ==> !IsWordChar(c);
    assert KeyAt(text, key, 0);
    SkipUnique(text, |key|, IsAsciiSpace, s);
    assert ValueAfter(text, |key|) == Some(s + 1);
    assert !AssignmentMasked(text, 0 + |key|);
  }

  /** What stands in a text without roots, in whatever case, has no roots. */
  lemma PartIsRootFree(text: string, p: nat, part: string, roots: seq<string>)
    requires p + |part| <= |text| && forall k :: 0 <= k < |part| ==> Lower(part[k]) == Lower(text[p + k])
    requires RootFree(text, roots)
    ensures RootFree(part, roots)
  {
    forall i, q: nat | 0 <= i < |roots| ensures !MatchesAt(part, roots[i], q) {
      assert !MatchesAt(text, roots[i], p + q);
      if q + |roots[i]| <= |part| {
        var k :| 0 <= k < |roots[i]| && Lower(text[p + q + k]) != Lower(roots[i][k]);
        assert Lower(part[q + k]) == Lower(text[p + (q + k)]);
      }
    }
  }

  /** Where something is to be masked, its bare form stands. */
  lemma BareFormStands(text: string, roots: seq<string>)
    requires RootFree(text, roots) && NothingToMask(roots)
    ensures Redacted(text)
  {
    forall p: nat | p < |text| ensures !MatchesAt(text, BEARER, p) {
      if MatchesAt(text, BEARER, p) {
        PartIsRootFree(text, p, BEARER, roots);
        assert IsBare(BEARER);
      }
    }
    forall i | 0 <= i < |KEYS| ensures KeysMasked(text, KEYS[i], |text|) {
      NoValues(text, i, roots);
    }
  }

  lemma NoValues(text: string, i: nat, roots: seq<string>)
    requires i < |KEYS| && RootFree(text, roots) && NothingToMask(roots)
    ensures KeysMasked(text, KEYS[i], |text|)
  {
    forall p: nat | KeyAt(text, KEYS[i], p) ensures AssignmentMasked(text, p + |KEYS[i]|) {
      BareFormOfKey(text, i, p, roots);
    }
  }

  lemma BareFormOfKey(text: string, i: nat, p: nat, roots: seq<string>)
    requires i < |KEYS| && KeyAt(text, KEYS[i], p) && RootFree(text, roots) && NothingToMask(roots)
    ensures SeparatorAfter(text, p + |KEYS[i]|) == None
  {
    var key := KEYS[i];
    var keyEnd := p + |key|;
    if SeparatorAfter(text, keyEnd).Some? {
      var s := SeparatorAfter(text, keyEnd).value;
      SkipRun(text, keyEnd, IsAsciiSpace);
      var part := key + text[keyEnd..s + 1];
      assert forall k :: |key| <= k < |part| ==> part[k] == text[p + k];
      PartIsRootFree(text, p, part, roots);
      assert BareAssignment(part, i, s - p);
    }
  }

  lemma ReplacedIsRootFree(text: string, roots: seq<string>)
    requires (forall r <- roots :: NoBrackets(r)) && RootFree(PROFILE, roots)
    ensures RootFree(ReplaceRoots(text, roots), roots)
  {
    forall i | 0 <= i < |roots| ensures Absent(ReplaceRoots(text, roots), roots[i]) {
      assert roots[i] in roots;
      ReplaceRootsRemove(text, roots, i);
    }
  }

  /** A root that hides in the placeholder comes back when it stands alone. */
  lemma PlaceholderBringsRoot(roots: seq<string>, i: nat)
    requires i < |roots| && NoBrackets(roots[i]) && !Absent(PROFILE, roots[i])
    ensures !RemovesRoots(roots)
  {
    var root := roots[i];
    RootIsPlain(root);
    RootLeavesPlaceholder(root, roots);
    ReplacementsStayPlain(root, roots);
    PlainIsFixed(ReplaceRoots(root, roots));
    PartBringsRoot(RedactString(root, roots), PROFILE, root);
  }

  lemma RootIsPlain(root: string)
    requires !Absent(PROFILE, root)
    ensures IsPlain(root)
  {
    var p: nat :| MatchesAt(PROFILE, root, p);
    assert forall c <- PROFILE :: Lower(c) == c;
    forall i | 0 <= i < |root| ensures Lower(root[i]) in PROFILE {
      assert Lower(PROFILE[p + i]) == Lower(root[i]);
    }
  }

  /** A root that hides in the mask comes back with the first mask. */
  lemma MaskBringsRoot(roots: seq<string>, i: nat, text: string)
    requires i < |roots| && !Absent(MASK, roots[i]) && RootFree(text, roots) && !Redacted(text)
    ensures !RemovesRoots(roots)
  {
    AbsentRootsAreFixed(text, roots);
    RedactTextFixes(text);
    ChangesLeaveMask(text);
    PartBringsRoot(RedactString(text, roots), MASK, roots[i]);
  }

  /**
   Roots without angle brackets are gone from every redacted string exactly when none of them hides in
   the placeholder, and either none hides in the mask or each marker and each assignment holds one.
   */
  lemma RootsAreRemovedExactly(roots: seq<string>)
    requires forall r <- roots :: NoBrackets(r)
    ensures RemovesRoots(roots) <==> RootFree(PROFILE, roots) && (RootFree(MASK, roots) || NothingToMask(roots))
  {
    if !RootFree(PROFILE, roots) {
      var i :| 0 <= i < |roots| && !Absent(PROFILE, roots[i]);
      assert roots[i] in roots;
      PlaceholderBringsRoot(roots, i);
    } else if RootFree(MASK, roots) {
      forall text ensures RootFree(RedactString(text, roots), roots) {
        RedactStringCleans(text, roots);
      }
    } else if NothingToMask(roots) {
      forall text ensures RootFree(RedactString(text, roots), roots) {
        ReplacedIsRootFree(text, roots);
        BareFormStands(ReplaceRoots(text, roots), roots);
        RedactedIsFixed(ReplaceRoots(text, roots));
      }
    } else {
      var i :| 0 <= i < |roots| && !Absent(MASK, roots[i]);
      var text :| IsBare(text) && RootFree(text, roots);
      BareIsNotRedacted(text);
      MaskBringsRoot(roots, i, text);
    }
  }

  /** An assignment in which a root that can only hide in the mask does not occur. */
  const WITNESS := "signing_key="

  lemma WitnessIsBare()
    ensures IsBare(WITNESS)
  {
    assert WITNESS[..11] == "signing_key" == KEYS[9];
    assert BareAssignment(WITNESS, 9, 11);
  }

  /** At least the neighbours in the mask. */
  predicate MaskPair(a: char, b: char) {
    match a
    case '<' | 't' => b == 'r' || b == 'e'
    case 'r' => b == 'e'
    case 'e' => b == 'd'
    case 'd' => b == 'a' || b == '>'
    case 'a' => b == 'c'
    case 'c' => b == 't'
    case _ => false
  }

  /** No two neighbours of the mask are neighbours in the text. */
  ghost predicate SharesNoPair(text: string) {
    forall q :: 0 <= q < |text| - 1 ==> !MaskPair(Lower(text[q]), Lower(text[q + 1]))
  }

  lemma MaskPairs()
    ensures forall p :: 0 <= p < |MASK| - 1 ==> MaskPair(Lower(MASK[p]), Lower(MASK[p + 1]))
  {
  }

  lemma LongRootIsAbsent(text: string, root: string)
    requires SharesNoPair(text) && |root| >= 2 && !Absent(MASK, root)
    ensures Absent(text, root)
  {
    var p: nat :| MatchesAt(MASK, root, p);
    assert Lower(MASK[p + 0]) == Lower(root[0]) && Lower(MASK[p + 1]) == Lower(root[1]);
    MaskPairs();
    forall q: nat ensures !MatchesAt(text, root, q) {
      if q + |root| <= |text| {
        assert !MaskPair(Lower(text[q + 0]), Lower(text[q + 1]));
      }
    }
  }

  /** The letters that only the mask has. */
  lemma OneLetter(root: string)
    requires |root| == 1 && NoBrackets(root) && Absent(PROFILE, root) && !Absent(MASK, root)
    ensures Lower(root[0]) in "dact"
  {
    var p: nat :| MatchesAt(MASK, root, p);
    assert Lower(MASK[p + 0]) == Lower(root[0]);
    assert !MatchesAt(PROFILE, root, 4) && !MatchesAt(PROFILE, root, 3);
  }

  lemma WitnessLetters()
    ensures SharesNoPair(WITNESS)
    ensures forall i :: 0 <= i < |WITNESS| ==> Lower(WITNESS[i]) !in "dact"
  {
    assert forall i :: 0 <= i < |WITNESS| ==> Lower(WITNESS[i]) == WITNESS[i];
    assert forall q :: 0 <= q < |WITNESS| - 1 ==> !MaskPair(WITNESS[q], WITNESS[q + 1]);
  }

  /** What occurs in the mask but not in the other placeholder does not occur in the witness. */
  lemma WitnessAvoids(root: string)
    requires NoBrackets(root) && Absent(PROFILE, root) && !Absent(MASK, root)
    ensures Absent(WITNESS, root)
  {
    WitnessLetters();
    if |root| == 1 {
      OneLetter(root);
    }
    AvoidsRoot(WITNESS, root, "dact");
  }

  lemma AvoidsRoot(text: string, root: string, letters: string)
    requires NoBrackets(root) && Absent(PROFILE, root) && !Absent(MASK, root) && SharesNoPair(text)
    requires |root| == 1 ==> Lower(root[0]) in letters
    requires forall i :: 0 <= i < |text| ==> Lower(text[i]) !in letters
    ensures Absent(text, root)
  {
    if |root| == 1 {
      LetterMissing(text, root, 0);
    } else {
      LongRootIsAbsent(text, root);
    }
  }

  /**
   One root without angle brackets cannot leave nothing to mask: it is gone from every redacted string
   exactly when neither placeholder holds it.
   */
  lemma RootIsRemovedExactly(root: string)
    requires NoBrackets(root)
    ensures RemovesRoots([root]) <==> IsPrivateRoot(root)
  {
    RootsAreRemovedExactly([root]);
    RootFreeOne(PROFILE, root);
    RootFreeOne(MASK, root);
    if Absent(PROFILE, root) && !Absent(MASK, root) {
      WitnessAvoids(root);
      RootFreeOne(WITNESS, root);
      WitnessIsBare();
    }
  }

  lemma RootFreeOne(text: string, root: string)
    ensures RootFree(text, [root]) <==> Absent(text, root)
  {
    assert [root][0] == root;
  }
}
