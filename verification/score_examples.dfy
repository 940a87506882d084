/**
 Concrete completion texts and the scores the parser reads from them.
 */
module ScoreExamples {
  import opened AtsScore

  /** No match can start inside a prefix that holds no capital `A`. */
  lemma NoMatchInPrefix(pre: string, t: string)
    requires 'A' !in pre
    ensures forall q: nat, e :: q < |pre| ==> !RegexMatch(pre + t, q, e)
  {
    forall q: nat, e | q < |pre| ensures !RegexMatch(pre + t, q, e) {
      assert (pre + t)[q] == pre[q];
      NoMatchWithoutLabelStart(pre + t, q, e);
    }
  }

  /** A report laid out as the prompt asks, with the score on its own line. */
  lemma ReportScenario(report: string)
    requires report == "STRENGTHS:\n- Good formatting\n" + "ATS SCORE: 87" + "\nWEAKNESSES:\n- Too long"
    ensures ExtractAtsScore(report) == 87
  {
    ReportParts(report, "STRENGTHS:\n- Good formatting\n", "\nWEAKNESSES:\n- Too long");
  }

  /** Any text whose first capital `A` opens `ATS SCORE: 87`, followed by a non-digit, scores 87. */
  lemma ReportParts(report: string, pre: string, rest: string)
    requires 'A' !in pre && (rest == [] || !IsDigit(rest[0]))
    requires report == pre + "ATS SCORE: 87" + rest
    ensures ExtractAtsScore(report) == 87
  {
    assert report == pre + Head("", " ") + DecimalString(87) + rest by {
      assert DecimalString(87) == "87";
      assert Head("", " ") + "87" == "ATS SCORE: 87";
    }
    NoMatchInPrefix(pre, Head("", " ") + DecimalString(87) + rest);
    assert pre + (Head("", " ") + DecimalString(87) + rest) == report;
    LabelledScore(pre, "", " ", 87, rest);
  }

  /** The prompt template puts the number on the line after the label. */
  lemma PromptLayoutScenario(answer: string)
    requires answer == "ATS SCORE:\n92\n"
    ensures ExtractAtsScore(answer) == 92
  {
    assert answer == "" + Head("", "\n") + DecimalString(92) + "\n" by {
      assert DecimalString(92) == "92";
    }
    LabelledScore("", "", "\n", 92, "\n");
  }

  /** Scores above 100 are capped. */
  lemma OverMaxScenario()
    ensures ExtractAtsScore("ATS SCORE: 150") == 100
  {
    assert "ATS SCORE: 150" == "" + Head("", " ") + DecimalString(150) + "";
    LabelledScore("", "", " ", 150, "");
  }

  /** Only three digits are captured: `1500` reads as 150, which is then capped. */
  lemma FourDigitScenario(answer: string)
    requires answer == "ATS SCORE: 1500"
    ensures Search(answer, 0) == Some(Match(0, "150"))
    ensures ExtractAtsScore(answer) == 100
  {
    assert answer[..|Label|] == Label;
    SkipSpacesUnique(answer, 9, 9);
    SkipSpacesUnique(answer, 10, 11);
    assert DigitRun(answer, 11) == 14;
    assert answer[11..14] == "150";
    assert MatchAt(answer, 0) == Some("150");
    assert "150" == DecimalString(150);
    DecimalRoundTrip(150);
  }

  /** Only three digits are captured: `0087` reads as `008`, which is 8. */
  lemma LeadingZeroScenario(answer: string)
    requires answer == "ATS SCORE: 0087"
    ensures Search(answer, 0) == Some(Match(0, "008"))
    ensures ExtractAtsScore(answer) == 8
  {
    assert answer[..|Label|] == Label;
    SkipSpacesUnique(answer, 9, 9);
    SkipSpacesUnique(answer, 10, 11);
    assert DigitRun(answer, 11) == 14;
    assert answer[11..14] == "008";
    assert MatchAt(answer, 0) == Some("008");
    LeadingZerosIgnored("00", "8");
    assert "008" == "00" + "8";
  }

  /** The label is case-sensitive: a lower-case label is not found and the score defaults to 0. */
  lemma LowerCaseScenario(answer: string)
    requires answer == "ats score: 80"
    ensures forall p: nat, d :: !RegexMatch(answer, p, d)
    ensures Search(answer, 0).None?
    ensures ExtractAtsScore(answer) == 0
  {
    assert 'A' !in answer;
    forall p: nat, d ensures !RegexMatch(answer, p, d) {
      NoMatchWithoutLabelStart(answer, p, d);
    }
    if Search(answer, 0).Some? {
      MatchAtSound(answer, Search(answer, 0).value.pos);
    }
    NoMatchScoresZero(answer);
  }

  /** An earlier label without a colon is skipped in favour of the first complete one. */
  lemma SkippedLabelScenario(answer: string)
    requires answer == "ATS SCORE pending\nATS SCORE: 64"
    ensures ExtractAtsScore(answer) == 64
  {
    var pre := "ATS SCORE pending\n";
    assert answer == pre + Head("", " ") + DecimalString(64) + "" by {
      assert DecimalString(64) == "64";
    }
    PendingLabelNoMatch(answer, pre);
    LabelledScore(pre, "", " ", 64, "");
  }

  /** The label with no colon after it, and the text up to the next label, hold no match. */
  lemma PendingLabelNoMatch(answer: string, pre: string)
    requires answer == "ATS SCORE pending\nATS SCORE: 64" && pre == "ATS SCORE pending\n"
    ensures forall q: nat, e :: q < |pre| ==> !RegexMatch(answer, q, e)
  {
    assert MatchAt(answer, 0).None? by {
      SkipSpacesUnique(answer, 9, 10);
      assert answer[10] == 'p';
    }
    forall q: nat, e | q < |pre| ensures !RegexMatch(answer, q, e) {
      if q == 0 {
        MatchAtIffRegex(answer, 0, e);
      } else {
        NoMatchWithoutLabelStart(answer, q, e);
      }
    }
  }

  /** A later labelled score is ignored once an earlier one matches. */
  lemma LaterLabelScenario(answer: string)
    requires answer == "ATS SCORE: 40\nATS SCORE: 90"
    ensures ExtractAtsScore(answer) == 40
  {
    var rest := "\nATS SCORE: 90";
    assert answer == "" + Head("", " ") + DecimalString(40) + rest by {
      assert DecimalString(40) == "40";
    }
    LabelledScore("", "", " ", 40, rest);
  }
}
