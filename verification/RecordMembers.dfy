/**
 What redaction does to a record, member by member and root by root, with every word and placeholder
 written out independently of the predicates the code branches on.
 */
module RecordMembers {
  import opened Wrappers
  import opened Characters
  import opened Redaction
  import opened RedactionPieces
  import opened MaskedAssignments
  import opened DiagnosticRecords

  // ---------------------------------------------------------------------------------------------
  // Members
  // ---------------------------------------------------------------------------------------------

  /** A member name that holds one of seven words, or is "authorization", in any case. */
  ghost predicate NamesSecret(name: string) {
    || HasWord(name, "bearer") || HasWord(name, "password") || HasWord(name, "secret") || HasWord(name, "token")
    || HasWord(name, "private_key") || HasWord(name, "signing_key") || HasWord(name, "api_key")
    || Spells(name, "authorization")
  }

  lemma ContainsExactly(text: string, word: string)
    ensures Contains(text, word) <==> HasWord(text, word)
  {
    FindFromIsFirst(text, word, 0);
    if Contains(text, word) {
      var p := FindFrom(text, word, 0).value;
      WordAt(text, word, p);
    }
    if HasWord(text, word) {
      var p: nat :| WordStands(text, word, p);
      assert text == text[..p] + text[p..p + |word|] + text[p + |word|..];
      SpelledMatches(text[..p], text[p..p + |word|], text[p + |word|..], word);
      assert MatchesAt(text, word, p);
    }
  }

  lemma WordAt(text: string, word: string, p: nat)
    requires MatchesAt(text, word, p)
    ensures HasWord(text, word)
  {
    var a, m, b := text[..p], text[p..p + |word|], text[p + |word|..];
    assert text == a + m + b;
    SpelledMatches(a, m, b, word);
    assert WordStands(text, word, p);
  }

  lemma SensitiveExactly(name: string)
    ensures Sensitive(name) <==> NamesSecret(name)
  {
    forall i | 0 <= i < |FRAGMENTS| ensures Contains(name, FRAGMENTS[i]) <==> HasWord(name, FRAGMENTS[i]) {
      ContainsExactly(name, FRAGMENTS[i]);
    }
    SevenWords(name);
    assert KEYS[0] == "authorization";
    SpelledMatches("", name, "", "authorization");
    assert "" + name + "" == name;
  }

  lemma SevenWords(name: string)
    ensures (exists i :: 0 <= i < |FRAGMENTS| && HasWord(name, FRAGMENTS[i])) <==>
            || HasWord(name, "bearer") || HasWord(name, "password") || HasWord(name, "secret")
            || HasWord(name, "token") || HasWord(name, "private_key") || HasWord(name, "signing_key")
            || HasWord(name, "api_key")
  {
    assert FRAGMENTS[0] == "bearer" && FRAGMENTS[1] == "password" && FRAGMENTS[2] == "secret";
    assert FRAGMENTS[3] == "token" && FRAGMENTS[4] == "private_key" && FRAGMENTS[5] == "signing_key";
    assert FRAGMENTS[6] == "api_key" && |FRAGMENTS| == 7;
  }

  lemma {:induction false} MemberAt(members: seq<Member>, roots: seq<string>, i: nat)
    requires i < |members|
    ensures |RedactMembers(members, roots)| == |members|
    ensures RedactMembers(members, roots)[i] == RedactMember(members[i], roots)
    decreases |members|
  {
    var rest := RedactMembers(members[1..], roots);
    FirstOfMembers(members, roots, rest);
    if |members| > 1 {
      MemberAt(members[1..], roots, if i > 0 then i - 1 else 0);
    }
  }

  lemma FirstOfMembers(members: seq<Member>, roots: seq<string>, rest: seq<Member>)
    requires members != [] && rest == RedactMembers(members[1..], roots)
    ensures RedactMembers(members, roots) == [RedactMember(members[0], roots)] + rest
    ensures |members| == 1 ==> rest == []
  {
  }

  lemma {:induction false} ItemCount(items: seq<Json>, roots: seq<string>)
    ensures |RedactItems(items, roots)| == |items|
    decreases |items|
  {
    if items != [] {
      ItemCount(items[1..], roots);
      FirstOfItems(items, roots, RedactItems(items[1..], roots));
    }
  }

  lemma {:induction false} ItemAt(items: seq<Json>, roots: seq<string>, after: seq<Json>, i: nat)
    requires i < |items| && after == RedactItems(items, roots) && |after| == |items|
    ensures after[i] == RedactJson(items[i], roots)
    decreases |items|
  {
    var rest := RedactItems(items[1..], roots);
    FirstOfItems(items, roots, rest);
    if i > 0 {
      ItemAt(items[1..], roots, rest, i - 1);
      assert after[i] == rest[i - 1];
    }
  }

  lemma FirstOfItems(items: seq<Json>, roots: seq<string>, rest: seq<Json>)
    requires items != [] && rest == RedactItems(items[1..], roots)
    ensures RedactItems(items, roots) == [RedactJson(items[0], roots)] + rest
  {
  }

  /** A member of a redacted object. */
  ghost predicate IsRedactedMember(before: Member, after: Member, roots: seq<string>) {
    && after.name == before.name
    && after.value == if NamesSecret(before.name) then Str("<redacted>") else RedactJson(before.value, roots)
  }

  /**
   A redacted object has the same members in the same order: the value of each one whose name gives it away
   is the mask, whatever it was, and every other value is redacted itself.
   */
  lemma ObjectIsRedacted(members: seq<Member>, roots: seq<string>)
    ensures var after := RedactJson(Obj(members), roots);
            && after.Obj? && |after.members| == |members|
            && forall i :: 0 <= i < |members| ==> IsRedactedMember(members[i], after.members[i], roots)
  {
    var after := RedactMembers(members, roots);
    if members != [] {
      MemberAt(members, roots, 0);
    }
    forall i | 0 <= i < |members| ensures IsRedactedMember(members[i], after[i], roots) {
      MemberAt(members, roots, i);
      MemberIsRedacted(members[i], roots);
    }
  }

  lemma MemberIsRedacted(m: Member, roots: seq<string>)
    ensures IsRedactedMember(m, RedactMember(m, roots), roots)
  {
    SensitiveExactly(m.name);
  }

  /** Arrays are redacted item by item, strings as strings, and everything else is kept. */
  lemma OtherValuesAreRedacted(v: Json, roots: seq<string>)
    requires !v.Obj?
    ensures var after := RedactJson(v, roots);
            if v.Arr? then
              && after.Arr? && |after.items| == |v.items|
              && forall i :: 0 <= i < |v.items| ==> after.items[i] == RedactJson(v.items[i], roots)
            else if v.Str? then after == Str(RedactString(v.text, roots))
            else after == v
  {
    if v.Arr? {
      ArrayIsRedacted(v.items, roots);
    }
  }

  lemma ArrayIsRedacted(items: seq<Json>, roots: seq<string>)
    ensures var after := RedactItems(items, roots);
            |after| == |items| && forall i :: 0 <= i < |items| ==> after[i] == RedactJson(items[i], roots)
  {
    var after := RedactItems(items, roots);
    ItemCount(items, roots);
    forall i | 0 <= i < |items| ensures after[i] == RedactJson(items[i], roots) {
      ItemAt(items, roots, after, i);
    }
  }

  // ---------------------------------------------------------------------------------------------
  // Roots
  // ---------------------------------------------------------------------------------------------

  /** A text in which a root does not occur, in any case, is kept; so is every text under an empty root. */
  lemma ReplaceKeeps(text: string, root: string)
    requires root == "" || !HasWord(text, root)
    ensures ReplaceRoot(text, root) == text
  {
    if root != "" {
      forall p: nat ensures !MatchesAt(text, root, p) {
        if MatchesAt(text, root, p) {
          WordAt(text, root, p);
        }
      }
      AbsentRootIsFixed(text, root);
    }
  }

  /**
   The first occurrence of a root, however it is spelled, becomes the placeholder, and what follows it is
   treated in the same way. Together with the lemma above this determines the replacement of every text.
   */
  lemma ReplaceGoesOn(front: string, word: string, behind: string, root: string)
    requires root != "" && Spells(word, root) && !HasWord(front + word[..|word| - 1], root)
    ensures ReplaceRoot(front + word + behind, root) == front + "<user-profile>" + ReplaceRoot(behind, root)
  {
    var text := front + word + behind;
    FirstRoot(front, word, behind, text, root);
    ReplaceUnfolds(text, 0, root, |front|);
    ReplaceBehind(front + word, behind, root);
    assert text[0..|front|] == front;
  }

  lemma FirstRoot(front: string, word: string, behind: string, text: string, root: string)
    requires root != "" && Spells(word, root) && !HasWord(front + word[..|word| - 1], root)
    requires text == front + word + behind
    ensures FindFrom(text, root, 0) == Some(|front|)
  {
    SpelledMatches(front, word, behind, root);
    forall p: nat | p < |front| ensures !MatchesAt(text, root, p) {
      if MatchesAt(text, root, p) {
        EarlierWord(front + word[..|word| - 1], text, root, p);
      }
    }
    FindFromIsFirst(text, root, 0);
  }

  lemma EarlierWord(front: string, text: string, root: string, p: nat)
    requires |front| <= |text| && text[..|front|] == front && MatchesAt(text, root, p) && p + |root| <= |front|
    ensures HasWord(front, root)
  {
    forall i | 0 <= i < |root| ensures Lower(front[p + i]) == Lower(root[i]) {
      assert text[p + i] == front[p + i];
    }
    WordAt(front, root, p);
  }

  lemma {:induction false} OccurrencesBehind(x: string, b: string, root: string, d: nat)
    requires root != "" && d <= |b|
    ensures FindOccurrences(x + b, |x| + d, root) == Shift(FindOccurrences(b, d, root), |x|)
    decreases |b| - d
  {
    FoundBehind(x, b, root, d);
    match FindFrom(b, root, d)
    case None =>
    case Some(at) => OccurrencesBehind(x, b, root, at + |root|);
  }

  lemma MatchBehind(x: string, b: string, root: string, q: nat)
    ensures MatchesAt(x + b, root, |x| + q) <==> MatchesAt(b, root, q)
  {
    assert (x + b)[|x|..] == b[0..];
    MatchShifted(x + b, |x|, b, 0, root, q);
  }

  lemma FirstMatchBehind(x: string, b: string, root: string, d: nat, at: nat)
    requires FirstMatch(b, d, root, at)
    ensures FirstMatch(x + b, |x| + d, root, |x| + at)
  {
    MatchBehind(x, b, root, at);
    forall q: nat | |x| + d <= q < |x| + at ensures !MatchesAt(x + b, root, q) {
      MatchBehind(x, b, root, q - |x|);
    }
  }

  lemma NoMatchBehind(x: string, b: string, root: string, d: nat)
    requires forall q: nat :: d <= q ==> !MatchesAt(b, root, q)
    ensures forall q: nat :: |x| + d <= q ==> !MatchesAt(x + b, root, q)
  {
    forall q: nat | |x| + d <= q ensures !MatchesAt(x + b, root, q) {
      MatchBehind(x, b, root, q - |x|);
    }
  }

  lemma FoundBehind(x: string, b: string, root: string, d: nat)
    requires d <= |b|
    ensures FindFrom(x + b, root, |x| + d) == match FindFrom(b, root, d)
                                              case None => None
                                              case Some(at) => Some(|x| + at)
  {
    FindFromIsFirst(b, root, d);
    match FindFrom(b, root, d)
    case None =>
      NoMatchBehind(x, b, root, d);
      FirstFound(x + b, root, |x| + d, None);
    case Some(at) =>
      FirstMatchBehind(x, b, root, d, at);
      FirstFound(x + b, root, |x| + d, Some(|x| + at));
  }

  lemma FirstFound(text: string, root: string, from: nat, found: Option<nat>)
    requires match found
             case None => forall q: nat :: from <= q ==> !MatchesAt(text, root, q)
             case Some(at) => FirstMatch(text, from, root, at)
    ensures FindFrom(text, root, from) == found
  {
    FindFromIsFirst(text, root, from);
  }

  lemma ReplaceBehind(x: string, b: string, root: string)
    requires root != ""
    ensures ReplaceRest(x + b, |x|, root) == ReplaceRoot(b, root)
  {
    OccurrencesBehind(x, b, root, 0);
    OccurrencesWithin(b, 0, root);
    RenderShifted(x, b, 0, FindOccurrences(b, 0, root), PROFILE);
  }

  /** Roots are replaced one after the other, and the result goes through the text passes. */
  lemma StringIsRedacted(text: string, root: string, roots: seq<string>)
    ensures RedactString(text, []) == RedactText(text)
    ensures RedactString(text, [root] + roots) == RedactString(ReplaceRoot(text, root), roots)
  {
    assert ([root] + roots)[1..] == roots;
  }
}
