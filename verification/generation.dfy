/** Text generation from a trained model: starting from a seed text, the
    trailing window of the text is looked up and a character sampled from its
    distribution is appended, until the requested number of characters has
    been produced or the trailing window was never seen in training. The
    random source is an explicit sequence of draws, one per generated character. */
module Generation {
  import opened CharDataList
  import opened Distribution
  import opened Training

  /** Character `j` of `text`, generated with draw number `j - from`, was
      sampled from the list of the window of the model's length just before it. */
  ghost predicate SampledAt(model: LanguageModel, text: string, from: nat, draws: seq<real>, j: int) {
    && from <= j < |text|
    && model.windowLength <= j
    && j - from < |draws|
    && text[j - model.windowLength..j] in model.charDataMap
    && text[j] == GetRandomChar(model.charDataMap[text[j - model.windowLength..j]], draws[j - from])
  }

  /** Every character of `text` from position `from` on was sampled. */
  ghost predicate SampledFrom(model: LanguageModel, text: string, from: nat, draws: seq<real>) {
    forall j :: from <= j < |text| ==> SampledAt(model, text, from, draws, j)
  }

  /** Appending a character sampled from the current trailing window keeps the
      characters generated so far sampled as they were. */
  lemma SampledFromExtend(model: LanguageModel, text: string, from: nat, draws: seq<real>, window: string, c: char)
    requires SampledFrom(model, text, from, draws)
    requires model.windowLength <= |text| && from <= |text| < from + |draws|
    requires window == text[|text| - model.windowLength..] && window in model.charDataMap
    requires c == GetRandomChar(model.charDataMap[window], draws[|text| - from])
    ensures SampledFrom(model, text + [c], from, draws)
  {
    var k := model.windowLength;
    var t := text + [c];
    forall j | from <= j < |t|
      ensures SampledAt(model, t, from, draws, j)
    {
      if j < |text| {
        assert SampledAt(model, text, from, draws, j);
        assert t[j - k..j] == text[j - k..j];
        assert t[j] == text[j];
      } else {
        assert t[j - k..j] == window;
      }
    }
  }

  /** Generates text from `initialText`: up to `textLength` characters are
      appended, each sampled with the next draw from the distribution of the
      trailing window; generation stops early at a window the model never saw. */
  method Generate(model: LanguageModel, initialText: string, textLength: int, draws: seq<real>)
    returns (generatedText: string)
    requires textLength <= |draws|
    ensures |initialText| < model.windowLength ==> generatedText == initialText
    ensures textLength <= 0 ==> generatedText == initialText
    ensures (|initialText| >= model.windowLength && textLength > 0 &&
             initialText[|initialText| - model.windowLength..] !in model.charDataMap) ==>
            generatedText == initialText
    ensures initialText <= generatedText
    ensures |generatedText| <= |initialText| + (if textLength > 0 then textLength else 0)
    ensures (|initialText| >= model.windowLength && |generatedText| < |initialText| + textLength) ==>
            generatedText[|generatedText| - model.windowLength..] !in model.charDataMap
    ensures SampledFrom(model, generatedText, |initialText|, draws)
  {
    var k := model.windowLength;
    if |initialText| < k {
      return initialText;
    }
    generatedText := initialText;
    var i := 0;
    while i < textLength
      invariant 0 <= i <= (if textLength > 0 then textLength else 0)
      invariant |generatedText| == |initialText| + i
      invariant initialText <= generatedText
      invariant i == 0 ==> generatedText == initialText
      invariant i > 0 ==> initialText[|initialText| - k..] in model.charDataMap
      invariant SampledFrom(model, generatedText, |initialText|, draws)
    {
      var window := generatedText[|generatedText| - k..];
      if window !in model.charDataMap {
        return generatedText;
      }
      assert i == 0 ==> window == initialText[|initialText| - k..];
      var c := GetRandomChar(model.charDataMap[window], draws[i]);
      SampledFromExtend(model, generatedText, |initialText|, draws, window, c);
      generatedText := generatedText + [c];
      i := i + 1;
    }
  }

  /** A window followed by some character in the corpus has a list in the
      trained model, and with a draw in [0, 1) the character sampled from it
      follows that window somewhere in the corpus. */
  lemma SampledCharFollowsCorpus(windowLength: nat, corpus: string, w: string, draw: real)
    requires Followed(corpus, windowLength, w)
    requires 0.0 <= draw < 1.0
    ensures w in Trained(windowLength, corpus).charDataMap
    ensures Occurrences(corpus, windowLength, w,
      GetRandomChar(Trained(windowLength, corpus).charDataMap[w], draw)) > 0
  {
    TrainedKeys(windowLength, corpus, w);
    var model := Trained(windowLength, corpus);
    var counts := Counts(corpus, windowLength);
    BuildWellFormed(corpus, windowLength, |corpus|);
    var probs := counts[w];
    SampleNeverFallsBack(probs, draw);
    var e :| 0 <= e < |probs| && probs[e].count > 0 &&
      GetRandomChar(CalculateProbabilities(probs), draw) == probs[e].chr;
    assert model.charDataMap[w] == CalculateProbabilities(probs);
    CountOfDistinct(probs, e);
    BuildCounts(corpus, windowLength, |corpus|, w, probs[e].chr);
  }

  /** Character `j` of a text sampled from a trained model with a draw in
      [0, 1) follows, somewhere in the corpus, the window before it. */
  lemma GeneratedCharFollowsCorpus(windowLength: nat, corpus: string, from: nat, text: string, draws: seq<real>, j: nat)
    requires SampledAt(Trained(windowLength, corpus), text, from, draws, j)
    requires 0.0 <= draws[j - from] < 1.0
    ensures windowLength <= j && Occurrences(corpus, windowLength, text[j - windowLength..j], text[j]) > 0
  {
    TrainedKeys(windowLength, corpus, text[j - windowLength..j]);
    SampledCharFollowsCorpus(windowLength, corpus, text[j - windowLength..j], draws[j - from]);
  }

  /** With draws in [0, 1), every character generated by a trained model
      follows, somewhere in the corpus, the window it was generated after. */
  lemma GeneratedFollowsCorpus(windowLength: nat, corpus: string, from: nat, text: string, draws: seq<real>)
    requires forall i :: 0 <= i < |draws| ==> 0.0 <= draws[i] < 1.0
    requires SampledFrom(Trained(windowLength, corpus), text, from, draws)
    ensures from < |text| ==> windowLength <= from
    ensures forall j :: from <= j < |text| ==>
      Occurrences(corpus, windowLength, text[j - windowLength..j], text[j]) > 0
  {
    if from < |text| {
      assert SampledAt(Trained(windowLength, corpus), text, from, draws, from);
    }
    forall j | from <= j < |text|
      ensures Occurrences(corpus, windowLength, text[j - windowLength..j], text[j]) > 0
    {
      assert SampledAt(Trained(windowLength, corpus), text, from, draws, j);
      GeneratedCharFollowsCorpus(windowLength, corpus, from, text, draws, j);
    }
  }

  /** Sampling after "a" from the model trained on "aab": a draw below 1/2
      picks 'b', any other draw in [0, 1) picks 'a'. */
  lemma AabSamplingExample(draw: real)
    requires 0.0 <= draw < 1.0
    ensures "a" in Trained(1, "aab").charDataMap
    ensures GetRandomChar(Trained(1, "aab").charDataMap["a"], draw) == if draw < 0.5 then 'b' else 'a'
  {
    AabModelExample();
    var cp := [CharData('b', 1, 0.5, 0.5), CharData('a', 1, 0.5, 1.0)];
    assert cp[1..] == [CharData('a', 1, 0.5, 1.0)];
  }
}
