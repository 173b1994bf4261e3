/** The per-window list of character statistics that the language model keeps:
    one CharData entry per character seen after a window, with its occurrence
    count and, once the model is finalised, its probability `p` and its
    cumulative probability `cp`. The list is an ordered sequence; a character
    seen for the first time is put at the beginning of the list. */
module CharDataList {

  /** Statistics of one character under one window. */
  datatype CharData = CharData(chr: char, count: nat, p: real, cp: real)

  type Probs = seq<CharData>

  /** The entry the list creates on first sight of a character: count 1,
      probabilities not yet computed. */
  function NewEntry(c: char): CharData {
    CharData(c, 1, 0.0, 0.0)
  }

  /** True if some entry of the list carries character `c`. */
  ghost predicate Contains(probs: Probs, c: char) {
    exists i :: 0 <= i < |probs| && probs[i].chr == c
  }

  /** No character has two entries in the list. */
  ghost predicate DistinctChars(probs: Probs) {
    forall i, j :: 0 <= i < j < |probs| ==> probs[i].chr != probs[j].chr
  }

  /** Every entry was seen at least once. */
  ghost predicate PositiveCounts(probs: Probs) {
    forall i :: 0 <= i < |probs| ==> probs[i].count >= 1
  }

  /** A list as training leaves it: non-empty, one entry per character, every count positive. */
  ghost predicate WellFormed(probs: Probs) {
    |probs| > 0 && DistinctChars(probs) && PositiveCounts(probs)
  }

  /** Position of the first entry for `c`, or -1 when the list has none. */
  function IndexOf(probs: Probs, c: char): (i: int)
    ensures -1 <= i < |probs|
    ensures 0 <= i ==> probs[i].chr == c
    ensures 0 <= i ==> forall j :: 0 <= j < i ==> probs[j].chr != c
    ensures i == -1 <==> !Contains(probs, c)
    decreases |probs|
  {
    if probs == [] then -1
    else if probs[0].chr == c then 0
    else
      var j := IndexOf(probs[1..], c);
      if j == -1 then -1 else j + 1
  }

  /** How many times `c` was counted in the list (0 when it has no entry). */
  function CountOf(probs: Probs, c: char): nat {
    var i := IndexOf(probs, c);
    if i == -1 then 0 else probs[i].count
  }

  /** Sum of all counts of the list. */
  function Total(probs: Probs): nat
    decreases |probs|
  {
    if probs == [] then 0 else Total(probs[..|probs| - 1]) + probs[|probs| - 1].count
  }

  lemma {:induction false} TotalConcat(a: Probs, b: Probs)
    ensures Total(a + b) == Total(a) + Total(b)
    decreases |b|
  {
    if b == [] {
      assert a + b == a;
    } else {
      var ab := a + b;
      assert ab[..|ab| - 1] == a + b[..|b| - 1];
      TotalConcat(a, b[..|b| - 1]);
    }
  }

  /** Replacing one entry by one with a count larger by one raises the total by one. */
  lemma TotalBump(probs: Probs, i: nat, e: CharData)
    requires i < |probs|
    requires e.count == probs[i].count + 1
    ensures Total(probs[i := e]) == Total(probs) + 1
  {
    var r := probs[i := e];
    assert probs == probs[..i] + [probs[i]] + probs[i + 1..];
    assert r == probs[..i] + [e] + probs[i + 1..];
    TotalConcat(probs[..i] + [probs[i]], probs[i + 1..]);
    TotalConcat(probs[..i], [probs[i]]);
    TotalConcat(probs[..i] + [e], probs[i + 1..]);
    TotalConcat(probs[..i], [e]);
    assert [e][..0] == [];
    assert [probs[i]][..0] == [];
  }

  /** The count of an entry never exceeds the total of its list. */
  lemma {:induction false} CountAtMostTotal(probs: Probs, i: nat)
    requires i < |probs|
    ensures probs[i].count <= Total(probs)
    decreases |probs|
  {
    if i < |probs| - 1 {
      CountAtMostTotal(probs[..|probs| - 1], i);
    }
  }

  /** Records one more occurrence of `c`: the entry for `c` is incremented if
      there is one, otherwise a new entry with count 1 is put at the beginning. */
  function Update(probs: Probs, c: char): (r: Probs)
    ensures |r| == |probs| + (if Contains(probs, c) then 0 else 1)
  {
    var i := IndexOf(probs, c);
    if i == -1 then [NewEntry(c)] + probs
    else probs[i := probs[i].(count := probs[i].count + 1)]
  }

  /** Update counts exactly one more `c` and leaves every other character's count alone. */
  lemma UpdateCounts(probs: Probs, c: char, d: char)
    ensures CountOf(Update(probs, c), d) == CountOf(probs, d) + (if d == c then 1 else 0)
  {
    var i := IndexOf(probs, c);
    var r := Update(probs, c);
    if i == -1 {
      assert r[1..] == probs;
    } else {
      IndexOfSameChars(probs, r, d);
    }
  }

  /** After Update the list has an entry for `c`, and otherwise the same characters. */
  lemma UpdateChars(probs: Probs, c: char, d: char)
    ensures Contains(Update(probs, c), d) <==> Contains(probs, d) || d == c
  {
    var i := IndexOf(probs, c);
    var r := Update(probs, c);
    if i == -1 {
      if Contains(r, d) && d != c {
        var j :| 0 <= j < |r| && r[j].chr == d;
        assert probs[j - 1].chr == d;
      }
      if Contains(probs, d) {
        var j :| 0 <= j < |probs| && probs[j].chr == d;
        assert r[j + 1].chr == d;
      }
      assert r[0].chr == c;
    } else {
      if Contains(r, d) {
        var j :| 0 <= j < |r| && r[j].chr == d;
        assert probs[j].chr == d;
      }
      if Contains(probs, d) {
        var j :| 0 <= j < |probs| && probs[j].chr == d;
        assert r[j].chr == d;
      }
    }
  }

  /** Existing entries keep their characters and their relative order; a new
      entry can only appear in front of them. */
  lemma UpdateKeepsOrder(probs: Probs, c: char)
    ensures forall j :: 0 <= j < |probs| ==>
      Update(probs, c)[j + |Update(probs, c)| - |probs|].chr == probs[j].chr
  {
    var r := Update(probs, c);
    if IndexOf(probs, c) == -1 {
      assert |r| - |probs| == 1;
      assert forall j :: 0 <= j < |probs| ==> r[j + 1] == probs[j];
    } else {
      assert |r| == |probs|;
    }
  }

  /** Update raises the total of the list by exactly one. */
  lemma UpdateTotal(probs: Probs, c: char)
    ensures Total(Update(probs, c)) == Total(probs) + 1
  {
    var i := IndexOf(probs, c);
    if i == -1 {
      TotalConcat([NewEntry(c)], probs);
      assert [NewEntry(c)][..0] == [];
    } else {
      TotalBump(probs, i, probs[i].(count := probs[i].count + 1));
    }
  }

  /** Update keeps a list non-empty, one entry per character and every count positive. */
  lemma UpdateWellFormed(probs: Probs, c: char)
    requires probs == [] || WellFormed(probs)
    ensures WellFormed(Update(probs, c))
  {
    var r := Update(probs, c);
    var i := IndexOf(probs, c);
    if i == -1 {
      assert r[1..] == probs;
      forall a, b | 0 <= a < b < |r|
        ensures r[a].chr != r[b].chr
      {
        if a == 0 {
          assert r[b] == probs[b - 1];
        }
      }
    }
  }

  /** IndexOf depends only on the characters of the entries, not on their counts. */
  lemma {:induction false} IndexOfSameChars(a: Probs, b: Probs, c: char)
    requires |a| == |b|
    requires forall j :: 0 <= j < |a| ==> a[j].chr == b[j].chr
    ensures IndexOf(a, c) == IndexOf(b, c)
    decreases |a|
  {
    if a != [] && a[0].chr != c {
      IndexOfSameChars(a[1..], b[1..], c);
    }
  }

  /** In a list with one entry per character, the count of the character of
      entry `i` is that entry's count. */
  lemma CountOfDistinct(probs: Probs, i: nat)
    requires DistinctChars(probs)
    requires i < |probs|
    ensures CountOf(probs, probs[i].chr) == probs[i].count
  {
    assert Contains(probs, probs[i].chr);
  }

  /** In a list whose counts are all positive, a character has a positive count
      exactly when it has an entry. */
  lemma CountPositiveIffContained(probs: Probs, c: char)
    requires PositiveCounts(probs)
    ensures CountOf(probs, c) > 0 <==> Contains(probs, c)
  {
  }
}
