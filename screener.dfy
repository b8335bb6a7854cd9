/** The client's automated content check (automatedApprovalCheck): the title,
    lower-cased, is scanned for each keyword of an ordered denylist; the first
    keyword found defers the listing for review, and a title that contains
    none is approved. */
module Screener {
  import opened Common
  import opened Strings

  /** The denylist, in the order in which it is scanned. */
  const INAPPROPRIATE_KEYWORDS: seq<string> := [
    "scam", "spam", "explicit", "profanity", "violence",
    "hate speech", "illegal", "counterfeit", "porn", "rape", "incest",
    "abuse", "drugs", "murder", "assassination", "bomb", "terrorist",
    "suicide", "obscene", "vulgar", "fraud", "weapon", "gun", "knife",
    "torture", "slavery", "exploitation", "corruption", "racism",
    "homophobia", "child abuse", "molestation", "harassment",
    "bullying", "extremism", "propaganda", "smuggling",
    "piracy", "prostitution", "human trafficking", "bribery",
    "extortion", "deception"
  ]

  /** The check's answer: APPROVED, or PENDING with the keyword it found. */
  datatype Verdict = Approved | Flagged(keyword: string)

  /** The reason text that a PENDING verdict carries. The quotation marks
      around the keyword are kept as the characters that stand in the source
      file (a UTF-8 curly quote read back as Windows-1252, the closing one
      missing its last byte). */
  function Reason(v: Verdict): (text: string)
    requires v.Flagged?
    ensures Contains(text, v.keyword)
  {
    var prefix := "Flagged for review due to \U{00E2}\U{20AC}\U{0153}";
    var text := prefix + v.keyword + ".\U{00E2}\U{20AC}";
    assert OccursAt(text, v.keyword, |prefix|);
    text
  }

  /** Keyword k of the list occurs in the lowered title and no earlier keyword
      does. */
  predicate IsFirstMatch(keywords: seq<string>, lowered: string, k: int) {
    && 0 <= k < |keywords|
    && Contains(lowered, keywords[k])
    && forall j :: 0 <= j < k ==> !Contains(lowered, keywords[j])
  }

  /** Index of the first keyword, from position `from` on, that occurs in
      `lowered`, if any. */
  function FirstMatch(keywords: seq<string>, lowered: string, from: nat): (r: Option<nat>)
    requires from <= |keywords|
    ensures r.Some? ==> from <= r.value < |keywords| && Contains(lowered, keywords[r.value])
    ensures forall j :: from <= j < (if r.Some? then r.value else |keywords|) ==> !Contains(lowered, keywords[j])
    decreases |keywords| - from
  {
    if from == |keywords| then None
    else if Contains(lowered, keywords[from]) then Some(from)
    else FirstMatch(keywords, lowered, from + 1)
  }

  /** The verdict for a title against a keyword list: PENDING exactly when
      some keyword occurs in the lower-cased title, naming the first such
      keyword in list order. */
  function ScreenWith(keywords: seq<string>, title: string): (v: Verdict)
    ensures v.Flagged? <==> exists k :: 0 <= k < |keywords| && Contains(Lower(title), keywords[k])
    ensures v.Flagged? ==> exists k :: IsFirstMatch(keywords, Lower(title), k) && v.keyword == keywords[k]
  {
    match FirstMatch(keywords, Lower(title), 0)
    case None => Approved
    case Some(k) => assert IsFirstMatch(keywords, Lower(title), k); Flagged(keywords[k])
  }

  /** The verdict of automatedApprovalCheck for a title. */
  function Screen(title: string): Verdict {
    ScreenWith(INAPPROPRIATE_KEYWORDS, title)
  }

  /** The scan itself, over any keyword list. */
  method CheckTitle(keywords: seq<string>, title: string) returns (v: Verdict)
    ensures v == ScreenWith(keywords, title)
  {
    var lowerTitle := Lower(title);
    for i := 0 to |keywords|
      invariant forall j :: 0 <= j < i ==> !Contains(lowerTitle, keywords[j])
    {
      if Contains(lowerTitle, keywords[i]) {
        assert FirstMatch(keywords, lowerTitle, 0) == Some(i);
        return Flagged(keywords[i]);
      }
    }
    return Approved;
  }

  /** automatedApprovalCheck: the scan over the fixed denylist. */
  method AutomatedApprovalCheck(title: string) returns (v: Verdict)
    ensures v == Screen(title)
  {
    v := CheckTitle(INAPPROPRIATE_KEYWORDS, title);
  }

  /** A first match is unique. */
  lemma FirstMatchUnique(keywords: seq<string>, lowered: string, k: int, k': int)
    requires IsFirstMatch(keywords, lowered, k) && IsFirstMatch(keywords, lowered, k')
    ensures k == k'
  {
  }

  /** Flagging is case-insensitive: a title that contains a keyword written in
      any mix of upper and lower case is deferred. */
  lemma FlaggedInAnyCase(keywords: seq<string>, title: string, word: string, k: int)
    requires 0 <= k < |keywords|
    requires Contains(title, word) && Lower(word) == keywords[k]
    ensures ScreenWith(keywords, title).Flagged?
  {
    ContainsAnyCase(title, word);
  }

  /** A keyword that contains an earlier keyword is never the one reported:
      any title containing it already contains the earlier one. */
  lemma ShadowedKeywordNeverReported(keywords: seq<string>, title: string, early: int, late: int)
    requires 0 <= early < late < |keywords|
    requires Contains(keywords[late], keywords[early])
    requires forall j :: 0 <= j <= early ==> keywords[j] != keywords[late]
    ensures ScreenWith(keywords, title) != Flagged(keywords[late])
  {
    var v := ScreenWith(keywords, title);
    if v.Flagged? {
      var k :| IsFirstMatch(keywords, Lower(title), k) && v.keyword == keywords[k];
      if Contains(Lower(title), keywords[late]) {
        ContainsTransitive(Lower(title), keywords[late], keywords[early]);
      }
    }
  }

  /** The reported keyword is the first in list order, not the longest: a
      title containing "child abuse" is reported for "abuse" (position 11) or
      an earlier keyword, so "child abuse" (position 30) is never reported. */
  lemma ChildAbuseReportedEarlier(title: string)
    requires Contains(Lower(title), "child abuse")
    ensures Screen(title).Flagged?
    ensures exists k :: 0 <= k <= 11 && Screen(title).keyword == INAPPROPRIATE_KEYWORDS[k]
    ensures Screen(title) != Flagged("child abuse")
  {
    var keywords := INAPPROPRIATE_KEYWORDS;
    assert keywords[11] == "abuse" && keywords[30] == "child abuse";
    assert OccursAt("child abuse", "abuse", 6);
    ContainsTransitive(Lower(title), "child abuse", "abuse");
    assert forall j :: 0 <= j <= 11 ==> keywords[j] != keywords[30];
    ShadowedKeywordNeverReported(keywords, title, 11, 30);
  }

  /** A string made only of white space contains no word that starts with a
      letter. */
  lemma BlankContainsNoWord(s: string, w: string)
    requires forall i :: 0 <= i < |s| ==> IsJsSpace(s[i])
    requires |w| > 0 && 'a' <= w[0] <= 'z'
    ensures !Contains(s, w)
  {
  }

  /** An empty or all-white-space title has nothing to flag and is approved,
      for any list of keywords that start with a letter. */
  lemma BlankTitleApproved(keywords: seq<string>, title: string)
    requires forall k :: 0 <= k < |keywords| ==> |keywords[k]| > 0 && 'a' <= keywords[k][0] <= 'z'
    requires forall i :: 0 <= i < |title| ==> IsJsSpace(title[i])
    ensures ScreenWith(keywords, title) == Approved
  {
    var lowered := Lower(title);
    forall i | 0 <= i < |lowered| ensures IsJsSpace(lowered[i]) {
      assert lowered[i] == LowerChar(title[i]);
    }
    forall k | 0 <= k < |keywords| ensures !Contains(lowered, keywords[k]) {
      BlankContainsNoWord(lowered, keywords[k]);
    }
  }

  /** Every keyword of the denylist starts with a lower-case letter. */
  lemma DenylistStartsWithLetters()
    ensures forall k :: 0 <= k < |INAPPROPRIATE_KEYWORDS| ==>
      |INAPPROPRIATE_KEYWORDS[k]| > 0 && 'a' <= INAPPROPRIATE_KEYWORDS[k][0] <= 'z'
  {
  }

  /** An empty or white-space-only title is approved by the denylist. */
  lemma BlankTitleScreenedApproved(title: string)
    requires forall i :: 0 <= i < |title| ==> IsJsSpace(title[i])
    ensures Screen(title) == Approved
  {
    DenylistStartsWithLetters();
    BlankTitleApproved(INAPPROPRIATE_KEYWORDS, title);
  }

  /** The first keyword of a list, once found, is always the one reported. */
  lemma FirstKeywordWins(keywords: seq<string>, title: string)
    requires |keywords| > 0 && Contains(Lower(title), keywords[0])
    ensures ScreenWith(keywords, title) == Flagged(keywords[0])
  {
  }

  /** "Scam textbook bundle" is deferred for "scam". */
  lemma ScamTitleDeferred(title: string)
    requires title == "Scam textbook bundle"
    ensures Screen(title) == Flagged("scam")
  {
    var lowered := Lower(title);
    assert OccursAt(lowered, "scam", 0) by {
      assert lowered[0] == 's' && lowered[1] == 'c' && lowered[2] == 'a' && lowered[3] == 'm';
      assert lowered[..4] == "scam";
    }
    assert INAPPROPRIATE_KEYWORDS[0] == "scam";
    FirstKeywordWins(INAPPROPRIATE_KEYWORDS, title);
  }
}
