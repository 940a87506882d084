/**
 The per-file processing loop: each uploaded document's extracted text is
 checked against the minimum length; a text that is too short is reported as
 not analysable and the loop moves on; otherwise the text goes to the
 completion service, the score is read from the answer, and the answer is
 laid out as a Letter-sized report.

 The completion service is a collaborator whose behaviour is not visible,
 and it samples its answers, so the same text may be answered differently
 on two calls. It is the parameter `service`: an arbitrary function of the
 call's number in this pass over the uploaded files (counted from 0) and
 the text sent.
 */
module Pipeline {
  import AtsScore
  import Lines
  import ReportLayout

  /** Texts shorter than this are not sent for analysis. */
  const MinTextLength: nat := 100

  /** An uploaded file: its name and the text extracted from it. */
  datatype Document = Document(name: string, text: string)

  /** What the page shows for one file. */
  datatype Outcome =
    | Skipped(name: string)
    | Analysed(name: string, response: string)

  /** The score shown for an analysed file, read from the service's answer. */
  function Score(out: Outcome): (score: nat)
    requires out.Analysed?
    ensures score <= AtsScore.MaxScore
  {
    AtsScore.ExtractAtsScore(out.response)
  }

  /** The lines of the downloadable report for an analysed file, laid out on Letter pages. */
  function Report(out: Outcome): (placed: seq<ReportLayout.Placed>)
    requires out.Analysed?
    ensures |placed| == Lines.Count(out.response, Lines.Newline) + 1
  {
    ReportLayout.RenderReport(out.response, ReportLayout.LetterHeight)
  }

  /** The answer the service gives to its call number `k` for a text. */
  type Service = (nat, string) -> string

  /** How many of the documents the loop sends to the service. */
  function Calls(docs: seq<Document>): (n: nat)
    ensures n <= |docs|
  {
    if docs == [] then 0
    else (if |docs[0].text| < MinTextLength then 0 else 1) + Calls(docs[1..])
  }

  /** One turn of the processing loop, for a document that would be call number `call`. */
  function ProcessOne(doc: Document, service: Service, call: nat): (out: Outcome)
    ensures out.name == doc.name
    ensures out.Skipped? <==> |doc.text| < MinTextLength
  {
    if |doc.text| < MinTextLength then Skipped(doc.name)
    else
      Analysed(doc.name, service(call, doc.text))
  }

  /** The rest of the loop, after the service has answered `call` requests. */
  function ProcessFrom(docs: seq<Document>, service: Service, call: nat): (outs: seq<Outcome>)
    ensures |outs| == |docs|
  {
    if docs == [] then []
    else
      var next := if |docs[0].text| < MinTextLength then call else call + 1;
      [ProcessOne(docs[0], service, call)] + ProcessFrom(docs[1..], service, next)
  }

  /**
   The processing loop over all uploaded files, in upload order. Each file
   keeps its name and is skipped exactly when its text is too short; each
   analysed file makes the next call to the service, and a skipped one makes
   none.
   */
  function ProcessAll(docs: seq<Document>, service: Service): (outs: seq<Outcome>)
    ensures |outs| == |docs|
    ensures forall i :: 0 <= i < |docs| ==> outs[i] == ProcessOne(docs[i], service, Calls(docs[..i]))
    ensures forall i :: 0 <= i < |docs| ==> outs[i].name == docs[i].name
    ensures forall i :: 0 <= i < |docs| ==> (outs[i].Skipped? <==> |docs[i].text| < MinTextLength)
  {
    ProcessFromAt(docs, service, 0);
    ProcessFrom(docs, service, 0)
  }

  /** Document `i` is answered by the call numbered after the documents before it that were sent. */
  lemma {:induction false} ProcessFromAt(docs: seq<Document>, service: Service, call: nat)
    ensures forall i :: 0 <= i < |docs| ==>
      ProcessFrom(docs, service, call)[i] == ProcessOne(docs[i], service, call + Calls(docs[..i]))
  {
    if docs != [] {
      var outs := ProcessFrom(docs, service, call);
      var first := if |docs[0].text| < MinTextLength then 0 else 1;
      ProcessFromAt(docs[1..], service, call + first);
      assert docs[..0] == [];
      forall i | 1 <= i < |docs|
        ensures outs[i] == ProcessOne(docs[i], service, call + Calls(docs[..i]))
      {
        var prefix := docs[..i];
        assert prefix[0] == docs[0] && prefix[1..] == docs[1..][..i - 1];
        assert Calls(prefix) == first + Calls(docs[1..][..i - 1]);
        assert docs[1..][i - 1] == docs[i];
        assert outs[i] == ProcessFrom(docs[1..], service, call + first)[i - 1];
      }
    }
  }

  /** Each analysed file has a call number of its own, below the number of calls made. */
  lemma CallsIncrease(docs: seq<Document>, i: nat, j: nat)
    requires i < j <= |docs| && |docs[i].text| >= MinTextLength
    ensures Calls(docs[..i]) < Calls(docs[..j])
  {
    assert docs[..j] == docs[..i] + docs[i..j];
    CallsAppend(docs[..i], docs[i..j]);
    assert docs[i..j][0] == docs[i];
  }

  /** The documents sent from a concatenation are those sent from each part. */
  lemma {:induction false} CallsAppend(xs: seq<Document>, ys: seq<Document>)
    ensures Calls(xs + ys) == Calls(xs) + Calls(ys)
  {
    if xs != [] {
      assert (xs + ys)[0] == xs[0] && (xs + ys)[1..] == xs[1..] + ys;
      CallsAppend(xs[1..], ys);
    } else {
      assert xs + ys == ys;
    }
  }

  /** The loop over a concatenation continues the service's call count from the first part. */
  lemma {:induction false} ProcessAppend(xs: seq<Document>, ys: seq<Document>, service: Service, call: nat)
    ensures ProcessFrom(xs + ys, service, call)
      == ProcessFrom(xs, service, call) + ProcessFrom(ys, service, call + Calls(xs))
  {
    if xs == [] {
      assert xs + ys == ys;
      assert ProcessFrom(xs, service, call) == [];
      assert Calls(xs) == 0;
      var r := ProcessFrom(ys, service, call);
      assert [] + r == r;
    } else {
      var next := if |xs[0].text| < MinTextLength then call else call + 1;
      var head := [ProcessOne(xs[0], service, call)];
      assert (xs + ys)[0] == xs[0] && (xs + ys)[1..] == xs[1..] + ys;
      assert ProcessFrom(xs + ys, service, call) == head + ProcessFrom(xs[1..] + ys, service, next);
      ProcessAppend(xs[1..], ys, service, next);
      assert next + Calls(xs[1..]) == call + Calls(xs);
      var a, b := ProcessFrom(xs[1..], service, next), ProcessFrom(ys, service, next + Calls(xs[1..]));
      assert ProcessFrom(xs, service, call) == head + a;
      assert head + (a + b) == (head + a) + b;
      assert ProcessFrom(xs + ys, service, call) == (head + a) + b;
    }
  }

  /**
   The loop sends nothing but long texts, with calls numbered from 0 up to the
   number of documents sent: two services that give the same answers to those
   calls produce the same outcomes.
   */
  lemma {:induction false} ServiceSeesOnlyLongTexts(docs: seq<Document>, a: Service, b: Service, call: nat)
    requires forall k: nat, t: string :: call <= k < call + Calls(docs) && |t| >= MinTextLength ==> a(k, t) == b(k, t)
    ensures ProcessFrom(docs, a, call) == ProcessFrom(docs, b, call)
  {
    if docs != [] {
      var next := if |docs[0].text| < MinTextLength then call else call + 1;
      ServiceSeesOnlyLongTexts(docs[1..], a, b, next);
      assert ProcessOne(docs[0], a, call) == ProcessOne(docs[0], b, call);
    }
  }

  /**
   A document whose text is shorter than 100 characters is skipped without a
   score, and its outcome is the same whatever the completion service would
   answer: the service is never consulted for it.
   */
  lemma ShortTextNeverAnalysed(docs: seq<Document>, a: Service, b: Service, i: nat)
    requires i < |docs| && |docs[i].text| < MinTextLength
    ensures ProcessAll(docs, a)[i] == Skipped(docs[i].name)
    ensures ProcessAll(docs, a)[i] == ProcessAll(docs, b)[i]
  {
  }

  /**
   A document long enough is sent to the service, and its score is the one
   the leftmost match of the score pattern in the answer gives, or 0 when the
   answer has no match.
   */
  lemma LongTextAnalysed(docs: seq<Document>, service: Service, i: nat)
    requires i < |docs| && |docs[i].text| >= MinTextLength
    ensures var out := ProcessAll(docs, service)[i];
      && out.Analysed?
      && out.response == service(Calls(docs[..i]), docs[i].text)
      && (forall p: nat, d :: LeftmostMatch(out.response, p, d) ==>
            Score(out) == AtsScore.Min(AtsScore.DigitsValue(d), AtsScore.MaxScore))
      && ((forall p: nat, d :: !AtsScore.RegexMatch(out.response, p, d)) ==> Score(out) == 0)
  {
    var out := ProcessAll(docs, service)[i];
    forall p: nat, d | LeftmostMatch(out.response, p, d)
      ensures Score(out) == AtsScore.Min(AtsScore.DigitsValue(d), AtsScore.MaxScore)
    {
      AtsScore.LeftmostMatchDecides(out.response, p, d);
    }
    if forall p: nat, d :: !AtsScore.RegexMatch(out.response, p, d) {
      AtsScore.NoMatchScoresZero(out.response);
    }
  }

  /** The pattern matches at `p` capturing `d`, and nowhere before `p`. */
  ghost predicate LeftmostMatch(s: string, p: nat, d: string) {
    && AtsScore.AllDigits(d)
    && AtsScore.RegexMatch(s, p, d)
    && forall q: nat, e :: q < p ==> !AtsScore.RegexMatch(s, q, e)
  }

  /**
   A skipped document takes no call and does not disturb the others: the
   documents before and after it come out as they do without it, given the
   same answers to the same calls.
   */
  lemma SkipKeepsOthers(before: seq<Document>, doc: Document, after: seq<Document>, service: Service)
    requires |doc.text| < MinTextLength
    ensures Calls(before + [doc] + after) == Calls(before + after)
    ensures ProcessAll(before + [doc] + after, service)
      == ProcessAll(before, service) + [Skipped(doc.name)] + ProcessFrom(after, service, Calls(before))
    ensures ProcessAll(before + after, service)
      == ProcessAll(before, service) + ProcessFrom(after, service, Calls(before))
  {
    SkipTakesNoCall(before, doc, after);
    SkipInserted(before, doc, after, service);
    SkipRemoved(before, after, service);
  }

  /** A skipped document takes no call. */
  lemma SkipTakesNoCall(before: seq<Document>, doc: Document, after: seq<Document>)
    requires |doc.text| < MinTextLength
    ensures Calls(before + [doc] + after) == Calls(before + after)
  {
    assert before + [doc] + after == before + ([doc] + after);
    assert ([doc] + after)[1..] == after;
    CallsAppend(before, [doc] + after);
    CallsAppend(before, after);
  }

  /** The loop across a skipped document: before it, its Skipped outcome, and after it. */
  lemma SkipInserted(before: seq<Document>, doc: Document, after: seq<Document>, service: Service)
    requires |doc.text| < MinTextLength
    ensures ProcessFrom(before + [doc] + after, service, 0)
      == ProcessFrom(before, service, 0) + [Skipped(doc.name)] + ProcessFrom(after, service, Calls(before))
  {
    var tail := [doc] + after;
    assert before + [doc] + after == before + tail;
    assert tail[0] == doc && tail[1..] == after;
    var rest := ProcessFrom(after, service, Calls(before));
    assert ProcessFrom(tail, service, Calls(before)) == [Skipped(doc.name)] + rest;
    ProcessAppend(before, tail, service, 0);
    var first := ProcessFrom(before, service, 0);
    assert first + ([Skipped(doc.name)] + rest) == first + [Skipped(doc.name)] + rest;
  }

  /** The loop over the documents without the skipped one. */
  lemma SkipRemoved(before: seq<Document>, after: seq<Document>, service: Service)
    ensures ProcessFrom(before + after, service, 0)
      == ProcessFrom(before, service, 0) + ProcessFrom(after, service, Calls(before))
  {
    ProcessAppend(before, after, service, 0);
  }
}
