/**
 Redaction of whole diagnostic records: private directory names are replaced, sensitive members of
 JSON objects are masked at every depth, and every other string goes through the text passes.
 */
module DiagnosticRecords {
  import opened Wrappers
  import opened Characters
  import opened Redaction

  const PROFILE: string := "<user-profile>"

  // ---------------------------------------------------------------------------------------------
  // Replacing a private root
  // ---------------------------------------------------------------------------------------------

  /** The leftmost disjoint occurrences of a needle behind a position. */
  function FindOccurrences(text: string, n: nat, needle: string): Spans
    requires n <= |text| && |needle| > 0
    decreases |text| - n
  {
    match FindFrom(text, needle, n)
    case None => End
    case Some(at) => Span(at, at + |needle|, FindOccurrences(text, at + |needle|, needle))
  }

  lemma {:induction false} OccurrencesWithin(text: string, n: nat, needle: string)
    requires n <= |text| && |needle| > 0
    ensures Within(text, n, FindOccurrences(text, n, needle))
    decreases |text| - n
  {
    match FindFrom(text, needle, n)
    case None =>
    case Some(at) => OccurrencesWithin(text, at + |needle|, needle);
  }

  function ReplaceRest(text: string, n: nat, needle: string): string
    requires n <= |text| && |needle| > 0
  {
    OccurrencesWithin(text, n, needle);
    Render(text, n, FindOccurrences(text, n, needle), PROFILE)
  }

  function ReplaceRoot(text: string, needle: string): string {
    if needle == "" then text else ReplaceRest(text, 0, needle)
  }

  lemma ReplaceEnds(text: string, n: nat, needle: string)
    requires n <= |text| && |needle| > 0 && FindFrom(text, needle, n).None?
    ensures ReplaceRest(text, n, needle) == text[n..]
  {
  }

  lemma ReplaceUnfolds(text: string, n: nat, needle: string, at: nat)
    requires n <= |text| && |needle| > 0 && FindFrom(text, needle, n) == Some(at)
    ensures ReplaceRest(text, n, needle) == text[n..at] + PROFILE + ReplaceRest(text, at + |needle|, needle)
  {
    OccurrencesWithin(text, n, needle);
    OccurrencesWithin(text, at + |needle|, needle);
  }

  /** What the loop emits for the occurrence it found, and where it goes on. */
  method NextReplacement(text: string, n: nat, needle: string, at: nat) returns (piece: string, next: nat)
    requires n <= |text| && |needle| > 0 && FindFrom(text, needle, n) == Some(at)
    ensures n < next <= |text| && ReplaceRest(text, n, needle) == piece + ReplaceRest(text, next, needle)
  {
    ReplaceUnfolds(text, n, needle, at);
    piece, next := text[n..at] + PROFILE, at + |needle|;
  }

  /** The replacement loop over what remains of the text. */
  method ReplaceIgnoringCase(text: string, needle: string) returns (output: string)
    ensures output == ReplaceRoot(text, needle)
  {
    if needle == "" {
      return text;
    }
    output := "";
    var n := 0;
    ghost var all := ReplaceRoot(text, needle);
    while true
      invariant n <= |text| && output + ReplaceRest(text, n, needle) == all
      decreases |text| - n
    {
      var index := FindFrom(text, needle, n);
      if index.None? {
        ReplaceEnds(text, n, needle);
        output := output + text[n..];
        return;
      }
      var piece, next := NextReplacement(text, n, needle, index.value);
      ExtendOutput(output, piece, ReplaceRest(text, next, needle), all, ReplaceRest(text, n, needle));
      output := output + piece;
      n := next;
    }
  }

  // ---------------------------------------------------------------------------------------------
  // Nothing private left
  // ---------------------------------------------------------------------------------------------

  ghost predicate Absent(text: string, needle: string) {
    forall p: nat :: !MatchesAt(text, needle, p)
  }

  /** A root as directory names are: not empty, without angle brackets. */
  ghost predicate NoBrackets(needle: string) {
    |needle| > 0 && forall i :: 0 <= i < |needle| ==> needle[i] != '<' && needle[i] != '>'
  }

  /** A text that starts with '<' and ends with '>', put in place of a stretch of another. */
  function Insert(text: string, i: nat, j: nat, mark: string): string
    requires i <= j <= |text|
  {
    text[..i] + mark + text[j..]
  }

  ghost predicate Bracketed(mark: string) {
    |mark| >= 2 && mark[0] == '<' && mark[|mark| - 1] == '>'
  }

  lemma InsertParts(text: string, i: nat, j: nat, mark: string)
    requires i <= j <= |text|
    ensures var t := Insert(text, i, j, mark);
            && (forall k :: 0 <= k < i ==> t[k] == text[k])
            && (forall k :: i <= k < i + |mark| ==> t[k] == mark[k - i])
            && t[i + |mark|..] == text[j..]
  {
  }

  /** A needle without brackets never touches the brackets of a mark. */
  lemma MatchAvoidsBrackets(text: string, i: nat, j: nat, mark: string, needle: string, p: nat)
    requires i <= j <= |text| && Bracketed(mark) && NoBrackets(needle)
    requires MatchesAt(Insert(text, i, j, mark), needle, p)
    ensures p + |needle| <= i || i + |mark| <= p || (i <= p && p + |needle| <= i + |mark|)
  {
    var t := Insert(text, i, j, mark);
    InsertParts(text, i, j, mark);
    assert t[i] == '<' && t[i + |mark| - 1] == '>';
    forall k | p <= k < p + |needle| ensures t[k] != '<' && t[k] != '>' {
      assert Lower(t[p + (k - p)]) == Lower(needle[k - p]);
    }
  }

  /** An occurrence after an insertion was there before, unless it lies inside the mark. */
  lemma MatchSurvivesInsert(text: string, i: nat, j: nat, mark: string, needle: string, p: nat)
    requires i <= j <= |text| && Bracketed(mark) && NoBrackets(needle) && Absent(mark, needle)
    requires MatchesAt(Insert(text, i, j, mark), needle, p)
    ensures (p + |needle| <= i && MatchesAt(text, needle, p))
         || (i + |mark| <= p && MatchesAt(text, needle, p - (i + |mark|) + j))
  {
    var t := Insert(text, i, j, mark);
    InsertParts(text, i, j, mark);
    MatchAvoidsBrackets(text, i, j, mark, needle, p);
    if i + |mark| <= p {
      MatchShifted(t, i + |mark|, text, j, needle, p - (i + |mark|));
    } else if p + |needle| > i {
      forall k | 0 <= k < |needle| ensures Lower(mark[p - i + k]) == Lower(needle[k]) {
        assert t[p + k] == mark[p + k - i];
      }
      assert MatchesAt(mark, needle, p - i);
    }
  }

  lemma InsertKeepsAbsent(text: string, i: nat, j: nat, mark: string, needle: string)
    requires i <= j <= |text| && Bracketed(mark) && NoBrackets(needle) && Absent(mark, needle)
    requires Absent(text, needle)
    ensures Absent(Insert(text, i, j, mark), needle)
  {
    forall p: nat ensures !MatchesAt(Insert(text, i, j, mark), needle, p) {
      if MatchesAt(Insert(text, i, j, mark), needle, p) {
        MatchSurvivesInsert(text, i, j, mark, needle, p);
      }
    }
  }

  ghost predicate NoneBelow(text: string, needle: string, bound: nat) {
    forall p: nat :: p < bound ==> !MatchesAt(text, needle, p)
  }

  lemma InsertProgress(done: string, m: nat, text: string, n: nat, at: nat, end: nat, mark: string, rest: string)
    requires m <= |done| && n <= |text| && done[m..] == text[n..] && n <= at <= end <= |text|
    ensures var i, j := m + (at - n), m + (end - n);
            && j <= |done|
            && Insert(done, i, j, mark)[i + |mark|..] == text[end..]
            && Insert(done, i, j, mark)[..i + |mark|] + rest == done[..m] + (text[n..at] + mark + rest)
  {
    var i, j := m + (at - n), m + (end - n);
    Deeper(done, m, text, n, end - n);
    assert text[n..at] == text[n..][..at - n] == done[m..][..at - n];
    assert done[..i] == done[..m] + done[m..][..at - n];
    assert Insert(done, i, j, mark)[..i + |mark|] == done[..i] + mark;
    Regroup(done[..m], text[n..at], mark);
    Regroup(done[..m], text[n..at] + mark, rest);
  }

  /** Replacing the first occurrence leaves none up to the end of the mark. */
  lemma NoneThroughMark(done: string, m: nat, text: string, n: nat, needle: string, at: nat)
    requires m <= |done| && n <= |text| && done[m..] == text[n..] && NoneBelow(done, needle, m)
    requires NoBrackets(needle) && Absent(PROFILE, needle) && FirstMatch(text, n, needle, at)
    ensures var i, j := m + (at - n), m + (at + |needle| - n);
            j <= |done| && NoneBelow(Insert(done, i, j, PROFILE), needle, i + |PROFILE|)
  {
    var i, j := m + (at - n), m + (at + |needle| - n);
    Deeper(done, m, text, n, at + |needle| - n);
    forall p: nat | p < i + |PROFILE| ensures !MatchesAt(Insert(done, i, j, PROFILE), needle, p) {
      if MatchesAt(Insert(done, i, j, PROFILE), needle, p) {
        MatchSurvivesInsert(done, i, j, PROFILE, needle, p);
        MatchShifted(done, m, text, n, needle, if m <= p then p - m else 0);
      }
    }
  }

  lemma NoneInTail(done: string, m: nat, text: string, n: nat, needle: string)
    requires m <= |done| && n <= |text| && done[m..] == text[n..] && NoneBelow(done, needle, m)
    requires forall q: nat :: n <= q ==> !MatchesAt(text, needle, q)
    ensures Absent(done, needle) && done == done[..m] + text[n..]
  {
    forall p: nat | m <= p ensures !MatchesAt(done, needle, p) {
      MatchShifted(done, m, text, n, needle, p - m);
    }
  }

  lemma {:induction false} ReplaceRemoves(done: string, m: nat, text: string, n: nat, needle: string)
    requires m <= |done| && n <= |text| && done[m..] == text[n..] && NoneBelow(done, needle, m)
    requires NoBrackets(needle) && Absent(PROFILE, needle)
    ensures Absent(done[..m] + ReplaceRest(text, n, needle), needle)
    decreases |text| - n
  {
    FindFromIsFirst(text, needle, n);
    match FindFrom(text, needle, n)
    case None =>
      ReplaceEnds(text, n, needle);
      NoneInTail(done, m, text, n, needle);
    case Some(at) =>
      var end := at + |needle|;
      var i := m + (at - n);
      var rest, whole := ReplaceRest(text, end, needle), ReplaceRest(text, n, needle);
      ReplaceUnfolds(text, n, needle, at);
      var next := NextInProgress(done, m, text, n, needle, at, rest, whole);
      ReplaceRemoves(next, i + |PROFILE|, text, end, needle);
  }

  lemma NextInProgress(
    done: string, m: nat, text: string, n: nat, needle: string, at: nat, rest: string, whole: string)
    returns (next: string)
    requires m <= |done| && n <= |text| && done[m..] == text[n..] && NoneBelow(done, needle, m)
    requires NoBrackets(needle) && Absent(PROFILE, needle) && FirstMatch(text, n, needle, at)
    requires whole == text[n..at] + PROFILE + rest
    ensures var m' := m + (at - n) + |PROFILE|;
            && m' <= |next| && next[m'..] == text[at + |needle|..] && NoneBelow(next, needle, m')
            && next[..m'] + rest == done[..m] + whole
  {
    var end := at + |needle|;
    next := Insert(done, m + (at - n), m + (end - n), PROFILE);
    NoneThroughMark(done, m, text, n, needle, at);
    InsertProgress(done, m, text, n, at, end, PROFILE, rest);
  }

  lemma ReplaceLeavesNone(text: string, needle: string)
    requires NoBrackets(needle) && Absent(PROFILE, needle)
    ensures Absent(ReplaceRoot(text, needle), needle)
  {
    ReplaceRemoves(text, 0, text, 0, needle);
    assert text[..0] + ReplaceRest(text, 0, needle) == ReplaceRoot(text, needle);
  }

  /**
   A root without angle brackets is removed from every text exactly when it is not itself a part of
   the placeholder, whatever the case of its letters.
   */
  lemma ReplaceRemovesExactly(needle: string)
    requires NoBrackets(needle)
    ensures (forall text :: Absent(ReplaceRoot(text, needle), needle)) <==> Absent(PROFILE, needle)
  {
    if Absent(PROFILE, needle) {
      forall text ensures Absent(ReplaceRoot(text, needle), needle) {
        ReplaceLeavesNone(text, needle);
      }
    } else {
      ReplaceWhole(needle);
    }
  }

  /** A text that is nothing but the root becomes the placeholder. */
  lemma ReplaceWhole(needle: string)
    requires |needle| > 0
    ensures ReplaceRoot(needle, needle) == PROFILE
  {
    FindFromIsFirst(needle, needle, 0);
    assert MatchesAt(needle, needle, 0);
    assert FindFrom(needle, needle, 0) == Some(0);
    ReplaceUnfolds(needle, 0, needle, 0);
    FindFromIsFirst(needle, needle, |needle|);
    ReplaceEnds(needle, |needle|, needle);
  }

  // ---------------------------------------------------------------------------------------------
  // Later replacements and passes bring nothing private back
  // ---------------------------------------------------------------------------------------------

  /** Putting a bracketed mark over any spans keeps an absent needle absent. */
  lemma {:induction false} RenderKeepsAbsent(
    done: string, m: nat, text: string, n: nat, spans: Spans, mark: string, needle: string)
    requires m <= |done| && n <= |text| && done[m..] == text[n..] && Within(text, n, spans)
    requires Bracketed(mark) && NoBrackets(needle) && Absent(mark, needle) && Absent(done, needle)
    ensures Absent(done[..m] + Render(text, n, spans, mark), needle)
    decreases spans
  {
    match spans
    case End =>
      assert done == done[..m] + done[m..];
    case Span(start, end, rest) =>
      var i, j := m + (start - n), m + (end - n);
      InsertProgress(done, m, text, n, start, end, mark, Render(text, end, rest, mark));
      InsertKeepsAbsent(done, i, j, mark, needle);
      var next := Insert(done, i, j, mark);
      assert next[..i + |mark|] + Render(text, end, rest, mark) == done[..m] + Render(text, n, spans, mark);
      RenderKeepsAbsent(next, i + |mark|, text, end, rest, mark, needle);
  }

  lemma ReplaceKeepsAbsent(text: string, root: string, needle: string)
    requires NoBrackets(needle) && Absent(PROFILE, needle) && Absent(text, needle)
    ensures Absent(ReplaceRoot(text, root), needle)
  {
    if root != "" {
      OccurrencesWithin(text, 0, root);
      RenderKeepsAbsent(text, 0, text, 0, FindOccurrences(text, 0, root), PROFILE, needle);
      assert text[..0] + ReplaceRest(text, 0, root) == ReplaceRoot(text, root);
    }
  }

  lemma EditIsInsert(text: string, i: nat, j: nat)
    requires i <= j <= |text|
    ensures Edit(text, i, j) == Insert(text, i, j, MASK)
  {
  }

  lemma AbsentIsClosed(needle: string)
    requires NoBrackets(needle) && Absent(MASK, needle)
    ensures EditClosed(t => Absent(t, needle))
  {
    forall t, i, j | EditOk(t, i, j) && Absent(t, needle) ensures Absent(Edit(t, i, j), needle) {
      EditIsInsert(t, i, j);
      InsertKeepsAbsent(t, i, j, MASK, needle);
    }
  }

  lemma KeyPassKeepsAbsent(text: string, key: string, needle: string)
    requires IsKey(key) && NoBrackets(needle) && Absent(MASK, needle) && Absent(text, needle)
    ensures Absent(MaskAssignments(text, key), needle)
  {
    var p := t => Absent(t, needle);
    AbsentIsClosed(needle);
    PassIsEdits(p, text, key);
    assert p(MaskAssignments(text, key));
  }

  lemma {:induction false} KeyPassesKeepAbsent(text: string, keys: seq<string>, needle: string)
    requires AreKeys(keys) && NoBrackets(needle) && Absent(MASK, needle) && Absent(text, needle)
    ensures Absent(MaskKeys(text, keys), needle)
    decreases |keys|
  {
    if keys != [] {
      KeyPassKeepsAbsent(text, keys[0], needle);
      KeyPassesKeepAbsent(MaskAssignments(text, keys[0]), keys[1..], needle);
    }
  }

  /** The text with its marker spelled as the pass writes it. */
  function Spelled(text: string, at: nat): string
    requires at + 7 <= |text|
  {
    text[..at] + "Bearer " + text[at + 7..]
  }

  lemma SpellingIrrelevant(text: string, at: nat, needle: string)
    requires MatchesAt(text, BEARER, at) && Absent(text, needle)
    ensures Absent(Spelled(text, at), needle)
  {
    var t := Spelled(text, at);
    assert forall k :: 0 <= k < 7 ==> Lower("Bearer "[k]) == Lower(BEARER[k]);
    forall k | 0 <= k < |t| ensures Lower(t[k]) == Lower(text[k]) {
      if at <= k < at + 7 {
        assert t[k] == "Bearer "[k - at];
        assert Lower(text[at + (k - at)]) == Lower(BEARER[k - at]);
      }
    }
    forall p: nat ensures !MatchesAt(t, needle, p) {
      CaseIrrelevant(text, t, needle, p);
    }
  }

  lemma CaseIrrelevant(a: string, b: string, needle: string, p: nat)
    requires |a| == |b| && forall k :: 0 <= k < |a| ==> Lower(b[k]) == Lower(a[k])
    ensures MatchesAt(a, needle, p) <==> MatchesAt(b, needle, p)
  {
    if p + |needle| <= |a| {
      forall k | p <= k < p + |needle| ensures Lower(b[k]) == Lower(a[k]) {
      }
    }
  }

  lemma SpliceIsInsert(text: string, at: nat, j: nat)
    requires at + 7 <= j <= |text|
    ensures Splice(text, at, j) == Insert(Spelled(text, at), at + 7, j, MASK)
  {
    assert MASKED_BEARER == "Bearer " + MASK;
    assert Spelled(text, at)[..at + 7] == text[..at] + "Bearer ";
    assert Spelled(text, at)[j..] == text[j..];
  }

  lemma SpliceKeepsAbsent(text: string, at: nat, j: nat, needle: string)
    requires at + 7 <= j <= |text| && MatchesAt(text, BEARER, at)
    requires NoBrackets(needle) && Absent(MASK, needle) && Absent(text, needle)
    ensures Absent(Splice(text, at, j), needle)
  {
    SpellingIrrelevant(text, at, needle);
    SpliceIsInsert(text, at, j);
    InsertKeepsAbsent(Spelled(text, at), at + 7, j, MASK, needle);
  }

  lemma {:induction false} BearerRenderKeepsAbsent(
    done: string, m: nat, text: string, n: nat, spans: Spans, needle: string)
    requires m <= |done| && n <= |text| && done[m..] == text[n..]
    requires Within(text, n, spans) && CoversBearers(text, n, spans)
    requires NoBrackets(needle) && Absent(MASK, needle) && Absent(done, needle)
    ensures Absent(done[..m] + Render(text, n, spans, MASKED_BEARER), needle)
    decreases spans
  {
    match spans
    case End =>
      assert done == done[..m] + done[m..];
    case Span(at, end, rest) =>
      var i := m + (at - n);
      var next := NextSplice(done, m, text, n, at, end, needle, Render(text, end, rest, MASKED_BEARER));
      BearerRenderKeepsAbsent(next, i + 17, text, end, rest, needle);
  }

  lemma NextSplice(done: string, m: nat, text: string, n: nat, at: nat, end: nat, needle: string, rest: string)
    returns (next: string)
    requires m <= |done| && n <= |text| && done[m..] == text[n..]
    requires n <= at && at + 7 <= end <= |text| && MatchesAt(text, BEARER, at)
    requires NoBrackets(needle) && Absent(MASK, needle) && Absent(done, needle)
    ensures var m' := m + (at - n) + 17;
            && m' <= |next| && next[m'..] == text[end..] && Absent(next, needle)
            && next[..m'] + rest == done[..m] + (text[n..at] + MASKED_BEARER + rest)
  {
    var i, j := m + (at - n), m + (end - n);
    MatchShifted(done, m, text, n, BEARER, at - n);
    SpliceInProgress(done, m, text, n, at, end, rest);
    SpliceKeepsAbsent(done, i, j, needle);
    next := Splice(done, i, j);
  }

  lemma BearerPassKeepsAbsent(text: string, needle: string)
    requires NoBrackets(needle) && Absent(MASK, needle) && Absent(text, needle)
    ensures Absent(MaskBearers(text), needle)
  {
    FoundBearersCover(text, 0);
    BearersWithin(text, 0);
    BearerRenderKeepsAbsent(text, 0, text, 0, FindBearers(text, 0), needle);
    assert text[..0] + MaskBearers(text) == MaskBearers(text);
  }

  lemma RedactTextKeepsAbsent(text: string, needle: string)
    requires NoBrackets(needle) && Absent(MASK, needle) && Absent(text, needle)
    ensures Absent(RedactText(text), needle)
  {
    KeysAreKeys();
    BearerPassKeepsAbsent(text, needle);
    KeyPassesKeepAbsent(MaskBearers(text), KEYS, needle);
  }

  // ---------------------------------------------------------------------------------------------
  // Strings
  // ---------------------------------------------------------------------------------------------

  /** A directory name the two placeholders cannot reproduce. */
  ghost predicate IsPrivateRoot(root: string) {
    NoBrackets(root) && Absent(PROFILE, root) && Absent(MASK, root)
  }

  function ReplaceRoots(text: string, roots: seq<string>): string
    decreases |roots|
  {
    if roots == [] then text else ReplaceRoots(ReplaceRoot(text, roots[0]), roots[1..])
  }

  function RedactString(text: string, roots: seq<string>): string {
    RedactText(ReplaceRoots(text, roots))
  }

  ghost predicate CleanString(text: string, roots: seq<string>) {
    Redacted(text) && forall i :: 0 <= i < |roots| ==> Absent(text, roots[i])
  }

  lemma {:induction false} ReplaceRootsKeepAbsent(text: string, roots: seq<string>, needle: string)
    requires NoBrackets(needle) && Absent(PROFILE, needle) && Absent(text, needle)
    ensures Absent(ReplaceRoots(text, roots), needle)
    decreases |roots|
  {
    if roots != [] {
      ReplaceKeepsAbsent(text, roots[0], needle);
      ReplaceRootsKeepAbsent(ReplaceRoot(text, roots[0]), roots[1..], needle);
    }
  }

  lemma {:induction false} ReplaceRootsRemove(text: string, roots: seq<string>, i: nat)
    requires i < |roots| && NoBrackets(roots[i]) && Absent(PROFILE, roots[i])
    ensures Absent(ReplaceRoots(text, roots), roots[i])
    decreases |roots|
  {
    if i == 0 {
      ReplaceLeavesNone(text, roots[0]);
      ReplaceRootsKeepAbsent(ReplaceRoot(text, roots[0]), roots[1..], roots[0]);
    } else {
      ReplaceRootsRemove(ReplaceRoot(text, roots[0]), roots[1..], i - 1);
    }
  }

  lemma RedactStringCleans(text: string, roots: seq<string>)
    requires forall r <- roots :: IsPrivateRoot(r)
    ensures CleanString(RedactString(text, roots), roots)
  {
    RedactTextMasksEverything(ReplaceRoots(text, roots));
    forall i | 0 <= i < |roots| ensures Absent(RedactString(text, roots), roots[i]) {
      assert roots[i] in roots;
      ReplaceRootsRemove(text, roots, i);
      RedactTextKeepsAbsent(ReplaceRoots(text, roots), roots[i]);
    }
  }

  lemma AbsentRootIsFixed(text: string, root: string)
    requires Absent(text, root)
    ensures ReplaceRoot(text, root) == text
  {
    if root != "" {
      FindFromIsFirst(text, root, 0);
      ReplaceEnds(text, 0, root);
    }
  }

  lemma {:induction false} AbsentRootsAreFixed(text: string, roots: seq<string>)
    requires forall i :: 0 <= i < |roots| ==> Absent(text, roots[i])
    ensures ReplaceRoots(text, roots) == text
    decreases |roots|
  {
    if roots != [] {
      AbsentRootIsFixed(text, roots[0]);
      assert forall i :: 0 <= i < |roots| - 1 ==> roots[1..][i] == roots[i + 1];
      AbsentRootsAreFixed(text, roots[1..]);
    }
  }

  lemma CleanStringIsFixed(text: string, roots: seq<string>)
    requires CleanString(text, roots)
    ensures RedactString(text, roots) == text
  {
    AbsentRootsAreFixed(text, roots);
    RedactedIsFixed(text);
  }

  // ---------------------------------------------------------------------------------------------
  // JSON values
  // ---------------------------------------------------------------------------------------------

  datatype Json =
    | Null
    | Bool(value: bool)
    | Number(literal: string)
    | Str(text: string)
    | Arr(items: seq<Json>)
    | Obj(members: seq<Member>)

  datatype Member = Member(name: string, value: Json)

  const FRAGMENTS: seq<string> := ["bearer", "password", "secret", "token", "private_key", "signing_key", "api_key"]

  predicate Contains(text: string, needle: string) {
    FindFrom(text, needle, 0).Some?
  }

  /** A member name that gives its value away. */
  predicate Sensitive(name: string) {
    || (exists i :: 0 <= i < |FRAGMENTS| && Contains(name, FRAGMENTS[i]))
    || (|name| == |KEYS[0]| && MatchesAt(name, KEYS[0], 0))
  }

  function RedactJson(v: Json, roots: seq<string>): Json
    decreases v, 1
  {
    match v
    case Obj(members) => Obj(RedactMembers(members, roots))
    case Arr(items) => Arr(RedactItems(items, roots))
    case Str(text) => Str(RedactString(text, roots))
    case _ => v
  }

  function RedactItems(items: seq<Json>, roots: seq<string>): seq<Json>
    decreases items, 0
  {
    if items == [] then [] else [RedactJson(items[0], roots)] + RedactItems(items[1..], roots)
  }

  function RedactMember(m: Member, roots: seq<string>): Member
    decreases m, 2
  {
    if Sensitive(m.name) then m.(value := Str(MASK)) else m.(value := RedactJson(m.value, roots))
  }

  function RedactMembers(members: seq<Member>, roots: seq<string>): seq<Member>
    decreases members, 0
  {
    if members == [] then [] else [RedactMember(members[0], roots)] + RedactMembers(members[1..], roots)
  }

  /** At every depth: sensitive members are the mask, and all other strings are clean. */
  ghost predicate CleanJson(v: Json, roots: seq<string>)
    decreases v, 1
  {
    match v
    case Obj(members) => CleanMembers(members, roots)
    case Arr(items) => CleanItems(items, roots)
    case Str(text) => CleanString(text, roots)
    case _ => true
  }

  ghost predicate CleanItems(items: seq<Json>, roots: seq<string>)
    decreases items, 0
  {
    items == [] || (CleanJson(items[0], roots) && CleanItems(items[1..], roots))
  }

  ghost predicate CleanMembers(members: seq<Member>, roots: seq<string>)
    decreases members, 0
  {
    members == [] ||
    (&& (if Sensitive(members[0].name) then members[0].value == Str(MASK) else CleanJson(members[0].value, roots))
     && CleanMembers(members[1..], roots))
  }

  /** The same structure: names, nesting, lengths and every scalar that is not a string. */
  ghost predicate SameShape(a: Json, b: Json)
    decreases a, 1
  {
    match a
    case Obj(members) => b.Obj? && SameMembers(members, b.members)
    case Arr(items) => b.Arr? && SameItems(items, b.items)
    case Str(_) => b.Str?
    case _ => a == b
  }

  ghost predicate SameItems(a: seq<Json>, b: seq<Json>)
    decreases a, 0
  {
    |a| == |b| && (a == [] || (SameShape(a[0], b[0]) && SameItems(a[1..], b[1..])))
  }

  ghost predicate SameMembers(a: seq<Member>, b: seq<Member>)
    decreases a, 0
  {
    |a| == |b| &&
    (a == [] ||
     (&& a[0].name == b[0].name
      && (Sensitive(a[0].name) || SameShape(a[0].value, b[0].value))
      && SameMembers(a[1..], b[1..])))
  }

  /** Redaction keeps the structure of a value and leaves nothing unmasked at any depth. */
  lemma {:induction false} RedactJsonCleans(v: Json, roots: seq<string>)
    requires forall r <- roots :: IsPrivateRoot(r)
    ensures CleanJson(RedactJson(v, roots), roots) && SameShape(v, RedactJson(v, roots))
    decreases v, 1
  {
    match v
    case Obj(members) => RedactMembersCleans(members, roots);
    case Arr(items) => RedactItemsCleans(items, roots);
    case Str(text) => RedactStringCleans(text, roots);
    case _ =>
  }

  lemma {:induction false} RedactItemsCleans(items: seq<Json>, roots: seq<string>)
    requires forall r <- roots :: IsPrivateRoot(r)
    ensures CleanItems(RedactItems(items, roots), roots) && SameItems(items, RedactItems(items, roots))
    decreases items, 0
  {
    if items != [] {
      RedactJsonCleans(items[0], roots);
      RedactItemsCleans(items[1..], roots);
      assert RedactItems(items, roots)[1..] == RedactItems(items[1..], roots);
    }
  }

  lemma {:induction false} RedactMembersCleans(members: seq<Member>, roots: seq<string>)
    requires forall r <- roots :: IsPrivateRoot(r)
    ensures CleanMembers(RedactMembers(members, roots), roots) && SameMembers(members, RedactMembers(members, roots))
    decreases members, 0
  {
    if members != [] {
      RedactJsonCleans(members[0].value, roots);
      RedactMembersCleans(members[1..], roots);
      assert RedactMembers(members, roots)[1..] == RedactMembers(members[1..], roots);
    }
  }

  lemma {:induction false} CleanJsonIsFixed(v: Json, roots: seq<string>)
    requires CleanJson(v, roots)
    ensures RedactJson(v, roots) == v
    decreases v, 1
  {
    match v
    case Obj(members) => CleanMembersAreFixed(members, roots);
    case Arr(items) => CleanItemsAreFixed(items, roots);
    case Str(text) => CleanStringIsFixed(text, roots);
    case _ =>
  }

  lemma {:induction false} CleanItemsAreFixed(items: seq<Json>, roots: seq<string>)
    requires CleanItems(items, roots)
    ensures RedactItems(items, roots) == items
    decreases items, 0
  {
    if items != [] {
      CleanJsonIsFixed(items[0], roots);
      CleanItemsAreFixed(items[1..], roots);
    }
  }

  lemma {:induction false} CleanMembersAreFixed(members: seq<Member>, roots: seq<string>)
    requires CleanMembers(members, roots)
    ensures RedactMembers(members, roots) == members
    decreases members, 0
  {
    if members != [] {
      if !Sensitive(members[0].name) {
        CleanJsonIsFixed(members[0].value, roots);
      }
      CleanMembersAreFixed(members[1..], roots);
    }
  }

  /** Redacting a record a second time changes nothing. */
  lemma RedactJsonIdempotent(v: Json, roots: seq<string>)
    requires forall r <- roots :: IsPrivateRoot(r)
    ensures RedactJson(RedactJson(v, roots), roots) == RedactJson(v, roots)
  {
    RedactJsonCleans(v, roots);
    CleanJsonIsFixed(RedactJson(v, roots), roots);
  }
}
