/** The topic filter of the run: a topic that mentions a banned keyword is
    replaced by a fixed, known-safe topic instead of aborting the run. The
    date-seeded choice of the topic itself (`pick_topic`) is an input here. */
module Topic {
  import opened Text

  const BannedKeywords: set<string> := {"casino", "adult", "hate", "piracy"}

  /** The topic a run falls back to when the chosen one is blocked:
      "AI agents & tool-use patterns: hands-on tutorial". */
  const FallbackTopic: string :=
    "AI" + " " + "agents" + " " + "&" + " " + "tool-use" + " " +
    "patterns:" + " " + "hands-on" + " " + "tutorial"

  /** `blocked(topic)`: some banned keyword is a substring of the lower-cased topic. */
  function Blocked(topic: string): (b: bool)
    ensures b <==> exists k :: k in BannedKeywords && Occurs(Lower(topic), k)
  {
    var t := Lower(topic);
    FindDecidesAll(t);
    exists k | k in BannedKeywords :: Find(t, k, 0, false).Some?
  }

  lemma FindDecidesAll(t: string)
    ensures forall k :: Find(t, k, 0, false).Some? <==> Occurs(t, k)
  {
    forall k ensures Find(t, k, 0, false).Some? <==> Occurs(t, k) {
      FindDecidesOccurs(t, k);
    }
  }

  /** The topic the run goes on with: the chosen one, or the fallback when the
      chosen one is blocked. The run never aborts over its topic, and never
      continues with a blocked one. */
  function ChooseTopic(picked: string): (topic: string)
    ensures !Blocked(topic)
    ensures !Blocked(picked) ==> topic == picked
    ensures Blocked(picked) ==> topic == FallbackTopic
  {
    if Blocked(picked) then (FallbackNotBlocked(); FallbackTopic) else picked
  }

  /** No banned keyword occurs in `s`. */
  ghost predicate Clean(s: string) {
    forall k :: k in BannedKeywords ==> !Occurs(s, k)
  }

  /** A word of the fallback topic in which no banned keyword occurs, shown
      by a character of each keyword that the word lacks in either case. */
  lemma CleanWord(w: string, c1: char, c2: char, c3: char, c4: char)
    requires c1 in "casino" && 'a' <= c1 <= 'z' && c1 !in w && (c1 as int - 32) as char !in w
    requires c2 in "adult" && 'a' <= c2 <= 'z' && c2 !in w && (c2 as int - 32) as char !in w
    requires c3 in "hate" && 'a' <= c3 <= 'z' && c3 !in w && (c3 as int - 32) as char !in w
    requires c4 in "piracy" && 'a' <= c4 <= 'z' && c4 !in w && (c4 as int - 32) as char !in w
    ensures Clean(Lower(w))
  {
    LowerMissing(w, c1);
    LowerMissing(w, c2);
    LowerMissing(w, c3);
    LowerMissing(w, c4);
    AbsentCharNoOccurrence(Lower(w), "casino", c1);
    AbsentCharNoOccurrence(Lower(w), "adult", c2);
    AbsentCharNoOccurrence(Lower(w), "hate", c3);
    AbsentCharNoOccurrence(Lower(w), "piracy", c4);
  }

  /** A word shorter than every banned keyword contains none of them. */
  lemma ShortWord(w: string)
    requires |w| < 4
    ensures Clean(Lower(w))
  {
  }

  /** Appending a clean word after a space keeps a text clean, since no
      banned keyword contains a space. */
  lemma CleanStep(t: string, w: string)
    requires Clean(Lower(t)) && Clean(Lower(w))
    ensures Clean(Lower(t + " " + w))
  {
    LowerAppend(t + " ", w);
    LowerAppend(t, " ");
    assert Lower(" ") == " ";
    var a, b := Lower(t), Lower(w);
    forall k | k in BannedKeywords ensures !Occurs(a + " " + b, k) {
      if Occurs(a + " " + b, k) {
        OccursAcrossSpace(a, b, k);
      }
    }
  }

  /** Seven clean words joined by single spaces make a clean text. */
  lemma CleanSentence(w1: string, w2: string, w3: string, w4: string, w5: string, w6: string, w7: string)
    requires Clean(Lower(w1)) && Clean(Lower(w2)) && Clean(Lower(w3)) && Clean(Lower(w4))
    requires Clean(Lower(w5)) && Clean(Lower(w6)) && Clean(Lower(w7))
    ensures Clean(Lower(w1 + " " + w2 + " " + w3 + " " + w4 + " " + w5 + " " + w6 + " " + w7))
  {
    var t2 := w1 + " " + w2;
    CleanStep(w1, w2);
    var t3 := t2 + " " + w3;
    CleanStep(t2, w3);
    var t4 := t3 + " " + w4;
    CleanStep(t3, w4);
    var t5 := t4 + " " + w5;
    CleanStep(t4, w5);
    var t6 := t5 + " " + w6;
    CleanStep(t5, w6);
    CleanStep(t6, w7);
  }

  lemma AgentsClean() ensures Clean(Lower("agents")) { CleanWord("agents", 'c', 'd', 'h', 'p'); }
  lemma ToolUseClean() ensures Clean(Lower("tool-use")) { CleanWord("tool-use", 'c', 'a', 'a', 'p'); }
  lemma PatternsClean() ensures Clean(Lower("patterns:")) { CleanWord("patterns:", 'c', 'd', 'h', 'y'); }
  lemma HandsOnClean() ensures Clean(Lower("hands-on")) { CleanWord("hands-on", 'c', 'u', 't', 'p'); }
  lemma TutorialClean() ensures Clean(Lower("tutorial")) { CleanWord("tutorial", 'c', 'd', 'h', 'p'); }

  /** The fallback topic passes the filter itself. */
  lemma FallbackNotBlocked()
    ensures !Blocked(FallbackTopic)
  {
    ShortWord("AI");
    AgentsClean();
    ShortWord("&");
    ToolUseClean();
    PatternsClean();
    HandsOnClean();
    TutorialClean();
    CleanSentence("AI", "agents", "&", "tool-use", "patterns:", "hands-on", "tutorial");
  }
}
