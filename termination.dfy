/** The user proxy's termination test (`is_termination_msg`): the dialogue
    stops at a message whose content, trimmed, ends with the sentinel. */
module Termination {
  import opened Wrappers
  import opened PyStr

  /** The word the market analyst is told to reply with when done. */
  const Sentinel: string := "TERMINATE"

  /** `content` is `None` when the message has no content key or a null one;
      Python's `x.get("content", "")` is then falsy, as is the empty string. */
  predicate IsTerminationMsg(content: Option<string>)
    ensures IsTerminationMsg(content) ==> content.Some? && |content.value| >= |Sentinel|
  {
    content.Some? && content.value != "" && EndsWith(Strip(content.value), Sentinel)
  }

  /** A message without content, or with empty content, never ends the chat;
      otherwise the verdict rests on the stripped text alone: the explicit
      non-empty test adds nothing once the text is present. */
  lemma TerminationIff(content: Option<string>)
    ensures content.None? ==> !IsTerminationMsg(content)
    ensures content == Some("") ==> !IsTerminationMsg(content)
    ensures content.Some? ==> (IsTerminationMsg(content) <==> EndsWith(Strip(content.value), Sentinel))
  {
    if content.Some? {
      var i :| StrippedAt(content.value, Strip(content.value), i);
    }
  }

  /** Leading and trailing whitespace never change the verdict. */
  lemma TerminationIgnoresPadding(w1: string, c: string, w2: string)
    requires AllSpace(w1) && AllSpace(w2)
    ensures IsTerminationMsg(Some(w1 + c + w2)) == IsTerminationMsg(Some(c))
  {
    StripPadded(w1, c, w2);
    TerminationIff(Some(w1 + c + w2));
    TerminationIff(Some(c));
  }

  /** The verdict for `"  " + c + "\n"` is the verdict for `c`. */
  lemma TerminationIgnoresSpacesAndNewline(c: string)
    ensures IsTerminationMsg(Some("  " + c + "\n")) == IsTerminationMsg(Some(c))
  {
    TerminationIgnoresPadding("  ", c, "\n");
  }

  /** The sentinel holds no whitespace, so stripping never cuts into it. */
  lemma SentinelSurvivesStrip(c: string)
    ensures EndsWith(Strip(c + Sentinel), Sentinel)
  {
    var s := c + Sentinel;
    assert s[|s| - |Sentinel|..] == Sentinel;
    forall k | 0 <= k < |Sentinel|
      ensures !IsSpace(Sentinel[k])
    {
      assert Sentinel[k] in "TERMINA";
    }
    StripKeepsSolidSuffix(s, Sentinel);
  }

  /** Any message whose last non-blank word is the sentinel ends the chat,
      whatever precedes it. */
  lemma SentinelLastTerminates(c: string, w: string)
    requires AllSpace(w)
    ensures IsTerminationMsg(Some(c + Sentinel + w))
  {
    SentinelSurvivesStrip(c);
    StripPaddedRight(c + Sentinel, w);
  }
}
