/** Training of the order-k character model: a sliding window of
    `windowLength` characters runs over the corpus, every character is
    counted in the list of the window just before it, and once the corpus is
    consumed every list is turned into a distribution. */
module Training {
  import opened CharDataList
  import opened Distribution

  /** Maps each window seen in the corpus to the list of characters that followed it. */
  type Table = map<string, Probs>

  /** The trained model: its window length and its table. */
  datatype LanguageModel = LanguageModel(windowLength: nat, charDataMap: Table)

  /** The list kept for `window`, empty when the window was never seen. */
  function ListOf(table: Table, window: string): Probs {
    if window in table then table[window] else []
  }

  /** One training step: the list of `window` is created if missing, then `c` is counted in it. */
  function Record(table: Table, window: string, c: char): Table
  {
    table[window := Update(ListOf(table, window), c)]
  }

  /** The table after the characters at positions windowLength .. n-1 have been
      counted, each in the list of the window of `windowLength` characters before it. */
  function Build(corpus: string, windowLength: nat, n: nat): Table
    requires n <= |corpus|
    decreases n
  {
    if n <= windowLength then map[]
    else Record(Build(corpus, windowLength, n - 1), WindowAt(corpus, windowLength, n - 1 - windowLength), corpus[n - 1])
  }

  /** The raw counts of a whole corpus, before probabilities are computed. */
  function Counts(corpus: string, windowLength: nat): Table {
    Build(corpus, windowLength, |corpus|)
  }

  /** The window of `windowLength` characters starting at position i. */
  function WindowAt(corpus: string, windowLength: nat, i: nat): string
    requires i + windowLength <= |corpus|
  {
    corpus[i..i + windowLength]
  }

  /** The start positions, below n, where `w` occurs in the corpus followed by `c`. */
  ghost function Positions(corpus: string, windowLength: nat, n: nat, w: string, c: char): set<nat>
    requires n <= |corpus|
  {
    set i: nat | i + windowLength < n && WindowAt(corpus, windowLength, i) == w && corpus[i + windowLength] == c
  }

  /** How often window `w` is immediately followed by `c` in the corpus. */
  ghost function Occurrences(corpus: string, windowLength: nat, w: string, c: char): nat {
    |Positions(corpus, windowLength, |corpus|, w, c)|
  }

  /** True when window `w` occurs in the corpus followed by a character at a
      position before `n`. */
  ghost predicate FollowedBefore(corpus: string, windowLength: nat, n: nat, w: string) {
    exists i: nat :: i + windowLength < n <= |corpus| && WindowAt(corpus, windowLength, i) == w
  }

  /** True when window `w` occurs in the corpus with a character after it. */
  ghost predicate Followed(corpus: string, windowLength: nat, w: string) {
    FollowedBefore(corpus, windowLength, |corpus|, w)
  }

  /** A table whose lists all have a positive total, so that each can be finalised. */
  ghost predicate Finalizable(table: Table) {
    forall w :: w in table ==> |table[w]| > 0 ==> Total(table[w]) > 0
  }

  /** Computes `p` and `cp` of every list of the table; the keys do not change. */
  function Finalize(table: Table): (r: Table)
    requires Finalizable(table)
    ensures r.Keys == table.Keys
    ensures forall w :: w in r ==> r[w] == CalculateProbabilities(table[w])
  {
    map w | w in table :: CalculateProbabilities(table[w])
  }

  /** The model obtained by training on `corpus` with the given window length. */
  function Trained(windowLength: nat, corpus: string): LanguageModel
  {
    BuildWellFormed(corpus, windowLength, |corpus|);
    LanguageModel(windowLength, Finalize(Counts(corpus, windowLength)))
  }

  /** Every list the training pass creates is non-empty, has one entry per
      character and only positive counts. */
  lemma {:induction false} BuildWellFormed(corpus: string, windowLength: nat, n: nat)
    requires n <= |corpus|
    ensures forall w :: w in Build(corpus, windowLength, n) ==> WellFormed(Build(corpus, windowLength, n)[w])
    ensures Finalizable(Build(corpus, windowLength, n))
    decreases n
  {
    if n > windowLength {
      var t := Build(corpus, windowLength, n - 1);
      BuildWellFormed(corpus, windowLength, n - 1);
      var window := WindowAt(corpus, windowLength, n - 1 - windowLength);
      UpdateWellFormed(ListOf(t, window), corpus[n - 1]);
      var r := Build(corpus, windowLength, n);
      forall w | w in r
        ensures |r[w]| > 0 ==> Total(r[w]) > 0
      {
        CountAtMostTotal(r[w], 0);
      }
    }
  }

  /** A training step adds the window to the keys and nothing else. */
  lemma RecordKeys(table: Table, window: string, c: char, w: string)
    ensures w in Record(table, window, c) <==> w in table || w == window
  {
  }

  /** A training step counts one more `c` under `window` and changes no other count. */
  lemma RecordCount(table: Table, window: string, d: char, w: string, c: char)
    ensures CountOf(ListOf(Record(table, window, d), w), c) ==
      CountOf(ListOf(table, w), c) + (if w == window && c == d then 1 else 0)
  {
    if w == window {
      UpdateCounts(ListOf(table, window), d, c);
    } else {
      assert ListOf(Record(table, window, d), w) == ListOf(table, w);
    }
  }

  /** The keys of the table are exactly the windows that occur in the corpus
      with a character after them; in particular every key has length windowLength. */
  lemma {:induction false} BuildKeys(corpus: string, windowLength: nat, n: nat, w: string)
    requires n <= |corpus|
    ensures w in Build(corpus, windowLength, n) <==> FollowedBefore(corpus, windowLength, n, w)
    decreases n
  {
    var k := windowLength;
    if n > k {
      var j := n - 1 - k;
      BuildKeys(corpus, k, n - 1, w);
      RecordKeys(Build(corpus, k, n - 1), WindowAt(corpus, k, j), corpus[n - 1], w);
      FollowedBeforeStep(corpus, k, n, w);
    }
  }

  /** Allowing one more position adds exactly the window at that position. */
  lemma FollowedBeforeStep(corpus: string, windowLength: nat, n: nat, w: string)
    requires windowLength < n <= |corpus|
    ensures FollowedBefore(corpus, windowLength, n, w) <==>
      FollowedBefore(corpus, windowLength, n - 1, w) || WindowAt(corpus, windowLength, n - 1 - windowLength) == w
  {
    var k := windowLength;
    var j := n - 1 - k;
    if FollowedBefore(corpus, k, n, w) && WindowAt(corpus, k, j) != w {
      var i: nat :| i + k < n && WindowAt(corpus, k, i) == w;
      assert i + k < n - 1;
    }
    if WindowAt(corpus, k, j) == w {
      assert j + k < n;
    }
  }

  /** Extending the corpus prefix by one position adds that position to the
      positions of (w, c) exactly when the new window and character are w and c. */
  lemma PositionsStep(corpus: string, windowLength: nat, n: nat, w: string, c: char)
    requires windowLength < n <= |corpus|
    ensures var j := n - 1 - windowLength;
      j !in Positions(corpus, windowLength, n - 1, w, c) &&
      Positions(corpus, windowLength, n, w, c) ==
        Positions(corpus, windowLength, n - 1, w, c) +
        (if WindowAt(corpus, windowLength, j) == w && corpus[n - 1] == c then {j} else {})
  {
  }

  /** The count of `c` under window `w` is the number of places where `w` is followed by `c`. */
  lemma {:induction false} BuildCounts(corpus: string, windowLength: nat, n: nat, w: string, c: char)
    requires n <= |corpus|
    ensures CountOf(ListOf(Build(corpus, windowLength, n), w), c) == |Positions(corpus, windowLength, n, w, c)|
    decreases n
  {
    var k := windowLength;
    if n <= k {
      assert Positions(corpus, k, n, w, c) == {};
    } else {
      BuildCounts(corpus, k, n - 1, w, c);
      PositionsStep(corpus, k, n, w, c);
      RecordCount(Build(corpus, k, n - 1), WindowAt(corpus, k, n - 1 - k), corpus[n - 1], w, c);
    }
  }

  /** Every step counts one character, so the counts of all lists add up to
      the number of characters after the first window. */
  lemma {:induction false} BuildTotal(corpus: string, windowLength: nat, n: nat)
    requires windowLength <= n <= |corpus|
    ensures SumTable(Build(corpus, windowLength, n)) == n - windowLength
    decreases n
  {
    if n > windowLength {
      var t := Build(corpus, windowLength, n - 1);
      BuildTotal(corpus, windowLength, n - 1);
      RecordTotal(t, WindowAt(corpus, windowLength, n - 1 - windowLength), corpus[n - 1]);
    }
  }

  /** Sum of the counts of every list of a table. */
  ghost function SumTable(table: Table): nat
    decreases |table|
  {
    if table == map[] then 0
    else
      var w :| w in table;
      Total(table[w]) + SumTable(table - {w})
  }

  /** The sum over a table may take its lists in any order. */
  lemma {:induction false} SumTableRemove(table: Table, w: string)
    requires w in table
    ensures SumTable(table) == Total(table[w]) + SumTable(table - {w})
    decreases |table|
  {
    var v :| v in table && SumTable(table) == Total(table[v]) + SumTable(table - {v});
    if v != w {
      assert |table - {v}| == |table| - 1;
      SumTableRemove(table - {v}, w);
      assert |table - {w}| == |table| - 1;
      SumTableRemove(table - {w}, v);
      assert table - {v} - {w} == table - {w} - {v};
    }
  }

  /** A training step adds exactly one to the sum of all counts. */
  lemma RecordTotal(table: Table, window: string, c: char)
    ensures SumTable(Record(table, window, c)) == SumTable(table) + 1
  {
    var r := Record(table, window, c);
    SumTableRemove(r, window);
    UpdateTotal(ListOf(table, window), c);
    assert r - {window} == table - {window};
    if window in table {
      SumTableRemove(table, window);
    } else {
      assert table - {window} == table;
    }
  }

  /** Counting character `c` at position `i` under `window`, the window before
      it, extends the table built from the positions before `i` by that position. */
  lemma BuildStep(corpus: string, windowLength: nat, i: nat, table: Table, window: string, c: char)
    requires windowLength <= i < |corpus|
    requires table == Build(corpus, windowLength, i)
    requires window == WindowAt(corpus, windowLength, i - windowLength) && c == corpus[i]
    ensures Record(table, window, c) == Build(corpus, windowLength, i + 1)
  {
  }

  /** Appending the next character and dropping the first one moves the window one position on. */
  lemma SlideWindow(corpus: string, windowLength: nat, i: nat, window: string, c: char)
    requires windowLength <= i < |corpus|
    requires window == WindowAt(corpus, windowLength, i - windowLength) && c == corpus[i]
    ensures (window + [c])[1..] == WindowAt(corpus, windowLength, i + 1 - windowLength)
  {
    assert corpus[i - windowLength..i] + [corpus[i]] == corpus[i - windowLength..i + 1];
  }

  /** The first loop of training: reads characters until the window is full or
      the corpus is exhausted. */
  method FirstWindow(windowLength: nat, corpus: string) returns (window: string, i: nat)
    ensures i == (if |corpus| < windowLength then |corpus| else windowLength)
    ensures window == corpus[..i]
  {
    window := "";
    i := 0;
    while i < |corpus| && |window| < windowLength
      invariant i <= |corpus| && i <= windowLength
      invariant window == corpus[..i]
    {
      window := window + [corpus[i]];
      i := i + 1;
    }
  }

  /** The counting pass of training: reads the first window, then counts every
      following character under the window before it while sliding the window
      by one position. */
  method CountCorpus(windowLength: nat, corpus: string) returns (table: Table)
    ensures table == Counts(corpus, windowLength)
  {
    var window, i := FirstWindow(windowLength, corpus);
    table := map[];
    while i < |corpus|
      invariant i <= |corpus|
      invariant i < |corpus| ==> windowLength <= i && window == WindowAt(corpus, windowLength, i - windowLength)
      invariant table == Build(corpus, windowLength, i)
    {
      var c := corpus[i];
      BuildStep(corpus, windowLength, i, table, window, c);
      SlideWindow(corpus, windowLength, i, window, c);
      table := Record(table, window, c);
      window := (window + [c])[1..];
      i := i + 1;
    }
  }

  /** Every window the counting pass records has exactly windowLength characters. */
  lemma CountsKeyLength(windowLength: nat, corpus: string)
    ensures forall w :: w in Counts(corpus, windowLength) ==> |w| == windowLength
  {
    forall w | w in Counts(corpus, windowLength)
      ensures |w| == windowLength
    {
      BuildKeys(corpus, windowLength, |corpus|, w);
    }
  }

  /** Training: the counting pass followed by the computation of the
      distribution of every list. */
  method Train(windowLength: nat, corpus: string) returns (model: LanguageModel)
    ensures model == Trained(windowLength, corpus)
    ensures forall w :: w in model.charDataMap ==> |w| == windowLength
    ensures |corpus| <= windowLength ==> model.charDataMap == map[]
  {
    var table := CountCorpus(windowLength, corpus);
    BuildWellFormed(corpus, windowLength, |corpus|);
    model := LanguageModel(windowLength, Finalize(table));
    CountsKeyLength(windowLength, corpus);
  }

  /** The windows of the trained model are exactly the windows that occur in
      the corpus with a character after them. */
  lemma TrainedKeys(windowLength: nat, corpus: string, w: string)
    ensures w in Trained(windowLength, corpus).charDataMap <==> Followed(corpus, windowLength, w)
  {
    BuildKeys(corpus, windowLength, |corpus|, w);
  }

  /** Under each window of the trained model the characters listed are those
      that follow it in the corpus, each once, counted exactly as often as they
      follow it. */
  lemma TrainedCounts(windowLength: nat, corpus: string, w: string, c: char)
    ensures w in Trained(windowLength, corpus).charDataMap ==>
      WellFormed(Trained(windowLength, corpus).charDataMap[w]) &&
      CountOf(Trained(windowLength, corpus).charDataMap[w], c) == Occurrences(corpus, windowLength, w, c) &&
      (Contains(Trained(windowLength, corpus).charDataMap[w], c) <==> Occurrences(corpus, windowLength, w, c) > 0)
  {
    var k := windowLength;
    var counts := Counts(corpus, k);
    BuildWellFormed(corpus, k, |corpus|);
    var m := Trained(k, corpus).charDataMap;
    if w in m {
      BuildCounts(corpus, k, |corpus|, w, c);
      FinalizedCounts(counts[w], c);
    }
  }

  /** The counts of all windows together add up to the number of characters
      after the first window, and to nothing when the corpus has no such character. */
  lemma CountsTotal(windowLength: nat, corpus: string)
    ensures SumTable(Counts(corpus, windowLength)) ==
      if windowLength < |corpus| then |corpus| - windowLength else 0
  {
    if windowLength < |corpus| {
      BuildTotal(corpus, windowLength, |corpus|);
    }
  }

  /** On the corpus "aab" with windows of length 1, window "a" is followed
      first by 'a' and then by 'b'; the later, new character is put in front. */
  lemma AabExample()
    ensures Counts("aab", 1) == map["a" := [NewEntry('b'), NewEntry('a')]]
  {
    var s := "aab";
    assert WindowAt(s, 1, 0) == "a" && WindowAt(s, 1, 1) == "a";
    assert Build(s, 1, 1) == map[];
    assert Update([], 'a') == [NewEntry('a')];
    assert Build(s, 1, 2) == map["a" := [NewEntry('a')]];
    assert IndexOf([NewEntry('a')], 'b') == -1;
    assert Update([NewEntry('a')], 'b') == [NewEntry('b'), NewEntry('a')];
    assert Build(s, 1, 3) == Record(Build(s, 1, 2), "a", 'b');
  }

  /** Finalising a table with a single window finalises just its list. */
  lemma FinalizeSingleWindow(w: string, probs: Probs)
    requires WellFormed(probs)
    ensures Finalize(map[w := probs]) == map[w := CalculateProbabilities(probs)]
  {
    CountAtMostTotal(probs, 0);
    var m := Finalize(map[w := probs]);
    assert m.Keys == {w};
  }

  /** A corpus whose counting pass sees a single window yields a model with
      just that window and its finalised list. */
  lemma TrainedSingleWindow(windowLength: nat, corpus: string, w: string, probs: Probs)
    requires Counts(corpus, windowLength) == map[w := probs]
    ensures WellFormed(probs)
    ensures Trained(windowLength, corpus).charDataMap == map[w := CalculateProbabilities(probs)]
  {
    BuildWellFormed(corpus, windowLength, |corpus|);
    assert w in Counts(corpus, windowLength);
    FinalizeSingleWindow(w, probs);
  }

  /** The model trained on "aab" with windows of length 1 gives 'b' and 'a'
      probability 1/2 each after "a". */
  lemma AabModelExample()
    ensures Trained(1, "aab").charDataMap == map["a" := [CharData('b', 1, 0.5, 0.5), CharData('a', 1, 0.5, 1.0)]]
  {
    AabExample();
    TrainedSingleWindow(1, "aab", "a", [NewEntry('b'), NewEntry('a')]);
    AabDistribution();
  }
}
