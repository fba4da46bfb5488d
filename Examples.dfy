/** Worked requests and summaries, checked against the model. */
module AskExamples {
  import opened Wrappers
  import opened PyText
  import opened SectionExtractor
  import opened QueryMatcher
  import opened AskEndpoint

  /** A summary whose results section is empty because the impacts label follows at once. */
  const Terse: string := "Results: Impacts: x"

  /**
   * A summary with a results section followed by an impacts section, put
   * together from its parts so that a proof can index into each part.
   */
  const BoneSummary: string := "Results:" + BoneFinding + "Impacts" + ":" + BoneImpact

  /** The text of the impacts section of `BoneSummary`. */
  const BoneImpact: string := " Mission duration limits."

  /** The text of the results section of `BoneSummary`, before stripping. */
  const BoneFinding: string := " Bone loss observed. "

  const BoneStudy: Article := Article("Bone Density Study", BoneSummary)

  // The example lemmas below take their literals as parameters fixed by a
  // `requires`, so that the verifier unfolds the recursive functions one
  // step at a time instead of evaluating them on the literal all at once.

  /** The keywords of the results intent hold no colon, and "Results" is one of them. */
  lemma ResultsKeywords(keywords: seq<string>)
    requires keywords == ["Result", "Results"]
    ensures ColonFree(keywords) && "Results" in keywords
  {
    forall w | w in keywords ensures ':' !in w {
      assert w == "Result" || w == "Results";
    }
  }

  /** A summary that opens with keyword `w` and a colon has as its section the stripped text up to the first stop label. */
  lemma OpensWith(s: string, keywords: seq<string>, w: string, e: nat)
    requires ColonFree(keywords) && w in keywords
    requires LabelAt(s, 0, w) && FirstStopOrEnd(s, |w| + 1, e)
    ensures ExtractSection(s, keywords) == Some(Strip(s[|w| + 1..e]))
  {
    ExtractSectionSpec(s, keywords, 0, w, e);
  }

  /** "Impacts:" begins one blank after the results colon of `Terse`, and no stop label before it. */
  lemma TerseFirstStop(s: string)
    requires s == Terse
    ensures FirstStopOrEnd(s, 8, 9)
  {
    assert LabelAt(s, 9, "Impacts");
    forall q: nat, w | 8 <= q < 9 && w in StopLabels
      ensures !LabelAt(s, q, w)
    {
      // every stop label has at least seven letters, and an 's' follows "Results: Impact"
      assert s[15] == 's';
    }
  }

  /** Extracting the results of `Terse` finds the label but yields the empty string. */
  lemma TerseResultsAreEmpty(s: string, keywords: seq<string>)
    requires s == Terse && keywords == ["Result", "Results"]
    ensures ExtractSection(s, keywords) == Some("")
  {
    calc {
      ExtractSection(s, keywords);
    == { TerseResultsUnstripped(s, keywords); }
      Some(Strip(s[8..9]));
    == { assert s[8..9] == " "; StripBlank(s[8..9]); }
      Some("");
    }
  }

  /** The results section of `Terse` is the stripped blank between its colon and "Impacts". */
  lemma TerseResultsUnstripped(s: string, keywords: seq<string>)
    requires s == Terse && keywords == ["Result", "Results"]
    ensures ExtractSection(s, keywords) == Some(Strip(s[8..9]))
  {
    assert LabelAt(s, 0, "Results");
    TerseFirstStop(s);
    ResultsKeywords(keywords);
    OpensWith(s, keywords, "Results", 9);
  }

  /** A lone blank strips to nothing. */
  lemma StripBlank(t: string)
    requires t == " "
    ensures Strip(t) == ""
  {
    assert SkipSpace(t, 1) == 1;
  }

  /** Asking for results of `Terse` falls through the empty section to the whole summary. */
  lemma TerseFallsThrough()
    ensures Route("results", Article("T", Terse), SectionMap) == Reply("T", Terse)
  {
    var best := Article("T", Terse);
    forall j | 0 <= j < |SectionMap|
      ensures !Claims("results", best, SectionMap[j])
    {
      TerseClaimsNothing("results", best, j);
    }
    RouteFallback("results", best, SectionMap);
  }

  /** No intent claims the query "results" against `Terse`: only "result" is in it, and its section is empty. */
  lemma TerseClaimsNothing(query: string, best: Article, j: nat)
    requires query == "results" && best == Article("T", Terse)
    requires j < |SectionMap|
    ensures !Claims(query, best, SectionMap[j])
  {
    var lowered := LowerStr(query);
    assert |lowered| == 7;
    if j == 0 {
      assert lowered[0] == 'r' && lowered[1] == 'e';
      assert !IsSubstring("impact", lowered);
    } else if j == 1 {
      TerseResultsAreEmpty(best.summary, SectionMap[1].sections);
    } else if j == 5 {
      assert lowered[0] == 'r';
      assert !IsSubstring("insight", lowered);
    } else {
      assert |SectionMap[j].key| > 7;
    }
  }

  /** A summary that holds nothing but a results section. */
  const Brief: string := "Results:x"

  /** The results of `Brief` run to the end of the text. */
  lemma BriefResults(s: string, keywords: seq<string>)
    requires s == Brief && keywords == ["Result", "Results"]
    ensures ExtractSection(s, keywords) == Some("x")
  {
    calc {
      ExtractSection(s, keywords);
    == { BriefResultsUnstripped(s, keywords); }
      Some(Strip(s[8..9]));
    == { assert s[8..9] == "x"; StripLetter(s[8..9]); }
      Some("x");
    }
  }

  /** The results section of `Brief` is the stripped text from its colon to the end. */
  lemma BriefResultsUnstripped(s: string, keywords: seq<string>)
    requires s == Brief && keywords == ["Result", "Results"]
    ensures ExtractSection(s, keywords) == Some(Strip(s[8..9]))
  {
    assert LabelAt(s, 0, "Results");
    // no stop label fits in the one letter after the colon
    assert FirstStopOrEnd(s, 8, 9);
    ResultsKeywords(keywords);
    OpensWith(s, keywords, "Results", 9);
  }

  /** A lone letter strips to itself. */
  lemma StripLetter(t: string)
    requires t == "x"
    ensures Strip(t) == "x"
  {
    assert SkipSpace(t, 0) == 0;
    assert SkipSpaceBack(t, 0, 1) == 1;
  }

  /** After the results colon, `BoneSummary` holds a colon only after "Impacts". */
  lemma BoneColonFree(s: string, i: nat)
    requires s == BoneSummary
    requires 8 <= i < |s| && i != 36
    ensures s[i] != ':'
  {
    if i < 29 {
      assert s[i] == BoneFinding[i - 8];
    } else if i < 36 {
      assert s[i] == "Impacts"[i - 29];
    } else {
      assert s[i] == BoneImpact[i - 37];
    }
  }

  /** No stop label with its colon begins between the results colon and "Impacts". */
  lemma BoneNoStopBefore(s: string, q: nat, w: string)
    requires s == BoneSummary
    requires 8 <= q < 29 && w in StopLabels
    ensures !LabelAt(s, q, w)
  {
    if q + |w| != 36 {
      if q + |w| < |s| {
        BoneColonFree(s, q + |w|);
      }
    } else if w == "Areas_of Scientific Progress" {
      // the only labels long enough to end at the colon after "Impacts" start with the wrong letter
      assert q == 8 && s[q] == BoneFinding[0];
      assert Lower(s[q + 0]) != Lower(w[0]);
    } else if w == "Knowledge Gaps" {
      assert q == 22 && s[q] == BoneFinding[14];
      assert Lower(s[q + 0]) != Lower(w[0]);
    }
  }

  /** The results section of `BoneSummary` ends where "Impacts:" begins. */
  lemma BoneFirstStop(s: string)
    requires s == BoneSummary
    ensures FirstStopOrEnd(s, 8, 29)
  {
    assert LabelAt(s, 29, "Impacts");
    forall q: nat, w | 8 <= q < 29 && w in StopLabels
      ensures !LabelAt(s, q, w)
    {
      BoneNoStopBefore(s, q, w);
    }
  }

  /** The text between the results colon and "Impacts" strips to the finding. */
  lemma StripBoneFinding(t: string)
    requires t == " Bone loss observed. "
    ensures Strip(t) == "Bone loss observed."
  {
    assert SkipSpace(t, 1) == 1;
    assert SkipSpace(t, 0) == 1;
    assert SkipSpaceBack(t, 1, 20) == 20;
    assert SkipSpaceBack(t, 1, 21) == 20;
  }

  /** The results of `BoneSummary` are the sentence before "Impacts:". */
  lemma BoneResults(s: string, keywords: seq<string>)
    requires s == BoneSummary && keywords == ["Result", "Results"]
    ensures ExtractSection(s, keywords) == Some("Bone loss observed.")
  {
    BoneResultsUnstripped(s, keywords);
    BoneFindingSlice(s);
    StripBoneFinding(BoneFinding);
  }

  /** The results section of `BoneSummary` is the stripped text from its colon up to "Impacts". */
  lemma BoneResultsUnstripped(s: string, keywords: seq<string>)
    requires s == BoneSummary && keywords == ["Result", "Results"]
    ensures ExtractSection(s, keywords) == Some(Strip(s[8..29]))
  {
    BoneOpensWithResults(s);
    BoneFirstStop(s);
    ResultsKeywords(keywords);
    OpensWith(s, keywords, "Results", 29);
  }

  /** The results section of `BoneSummary`, unstripped. */
  lemma BoneFindingSlice(s: string)
    requires s == BoneSummary
    ensures s[8..29] == BoneFinding
  {
  }

  /** `BoneSummary` opens with "Results:". */
  lemma BoneOpensWithResults(s: string)
    requires s == BoneSummary
    ensures LabelAt(s, 0, "Results")
  {
    forall k | 0 <= k < 8 ensures s[k] == "Results:"[k] {
    }
  }

  /**
   * Asking "results" of the bone study: "impact" is not in the query, "result"
   * is, and the results section is there, so the reply is that section titled
   * with the label "Result".
   */
  lemma BoneResultsQuery(query: string, best: Article, intents: seq<Intent>)
    requires query == "results" && best == BoneStudy && intents == SectionMap
    ensures Route(query, best, intents)
         == Reply("Bone Density Study" + TitleSeparator + "Result", "Bone loss observed.")
  {
    SectionMapWellFormed();
    ResultsQueryKeys(query);
    var rest := intents[1..];
    assert rest[0] == Intent("result", ["Result", "Results"]);
    calc {
      Route(query, best, intents);
    == { assert intents[0].key == "impact"; }
      Route(query, best, rest);
    == { BoneResults(best.summary, rest[0].sections); }
      Reply("Bone Density Study" + TitleSeparator + "Result", "Bone loss observed.");
    }
  }

  /** The query "results" holds the key "result" but not "impact". */
  lemma ResultsQueryKeys(query: string)
    requires query == "results"
    ensures !IsSubstring("impact", LowerStr(query))
    ensures IsSubstring("result", LowerStr(query))
  {
    var lowered := LowerStr(query);
    assert |lowered| == 7;
    assert lowered[0] == 'r' && lowered[1] == 'e';
    assert lowered[..6] == "result";
    assert OccursAt("result", lowered, 0);
  }

  /** A low best score is rejected. */
  lemma PlantsQueryRejected()
    ensures Ask("tell me about plants", [BoneStudy], [0.12]) == Json(NoMatchReply)
  {
    assert Strip("tell me about plants") != [];
  }

  /** A blank query never reaches the scores. */
  lemma BlankQueryPrompts()
    ensures Ask("  ", [BoneStudy], [0.85]) == Json(EmptyQueryReply)
  {
    assert SkipSpace("  ", 2) == 2;
  }
}
