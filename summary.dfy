/**
  The summary step: each question's answers counted in an insertion-ordered
  dict and sorted by count, descending, with a stable sort; and the inputs
  of the per-question mean.
*/
module Summary {
  import opened Wrappers
  import opened Numbers
  import opened Aggregate

  /** One `(answer, times)` item of `counts.items()`. */
  datatype Count = Count(answer: Answer, times: nat)

  /**
    The distinct answers of `s` in order of first appearance: the keys of
    `counts`, in the order the dict holds them. The int `5` and the string
    `"5"` are different answers.
  */
  function Distinct(s: seq<Answer>): (d: seq<Answer>)
    ensures forall a :: a in d <==> a in s
    ensures forall i, j :: 0 <= i < j < |d| ==> d[i] != d[j]
  {
    if s == [] then []
    else
      var p, x := s[..|s| - 1], s[|s| - 1];
      assert s == p + [x];
      var d0 := Distinct(p);
      if x in d0 then d0 else d0 + [x]
  }

  /** The position where `a` first occurs in `s`, or `|s|` when it does not occur. */
  function FirstIndex(s: seq<Answer>, a: Answer): (k: nat)
    ensures k <= |s|
    ensures k < |s| <==> a in s
    ensures k < |s| ==> s[k] == a
    ensures forall i :: 0 <= i < k && i < |s| ==> s[i] != a
  {
    if s == [] then 0
    else
      var p := s[..|s| - 1];
      assert s == p + [s[|s| - 1]];
      if a in p then FirstIndex(p, a)
      else if s[|s| - 1] == a then |s| - 1
      else |s|
  }

  /** `counts` for the answers `keys`, each with the number of times it occurs in `s`. */
  function ItemsOf(keys: seq<Answer>, s: seq<Answer>): seq<Count> {
    seq(|keys|, i requires 0 <= i < |keys| => Count(keys[i], multiset(s)[keys[i]]))
  }

  /** `counts.items()` once every answer of `s` is counted. */
  function Items(s: seq<Answer>): seq<Count> {
    ItemsOf(Distinct(s), s)
  }

  /** The counting loop: a dict from answer to count, keys kept in insertion order. */
  method CountAnswers(answers: seq<Answer>) returns (items: seq<Count>)
    ensures items == Items(answers)
  {
    var keys: seq<Answer> := [];
    var counts: map<Answer, nat> := map[];
    var j := 0;
    while j < |answers|
      invariant 0 <= j <= |answers|
      invariant Tallied(keys, counts, answers[..j])
    {
      assert answers[..j + 1] == answers[..j] + [answers[j]];
      keys, counts := CountOne(keys, counts, answers[..j], answers[j]);
      j := j + 1;
    }
    assert answers[..j] == answers;
    items := CountItems(keys, counts);
    ItemsFromCounts(keys, counts, answers);
  }

  /** `keys` and `counts` are the dict after counting `seen`. */
  ghost predicate Tallied(keys: seq<Answer>, counts: map<Answer, nat>, seen: seq<Answer>) {
    && keys == Distinct(seen)
    && (forall a :: a in counts <==> a in keys)
    && (forall a :: a in counts ==> counts[a] == multiset(seen)[a])
  }

  /** The body of the counting loop: a new answer gets count 1, a known one one more. */
  method CountOne(keys: seq<Answer>, counts: map<Answer, nat>, ghost seen: seq<Answer>, answer: Answer)
    returns (keys': seq<Answer>, counts': map<Answer, nat>)
    requires Tallied(keys, counts, seen)
    ensures Tallied(keys', counts', seen + [answer])
  {
    if answer !in counts {
      counts' := counts[answer := 1];
      keys' := keys + [answer];
      TallyNew(keys, counts, seen, answer);
    } else {
      counts' := counts[answer := counts[answer] + 1];
      keys' := keys;
      TallyKnown(keys, counts, seen, answer);
    }
  }

  /** An answer not counted yet joins the keys with count 1. */
  lemma TallyNew(keys: seq<Answer>, counts: map<Answer, nat>, seen: seq<Answer>, x: Answer)
    requires Tallied(keys, counts, seen)
    requires x !in counts
    ensures Tallied(keys + [x], counts[x := 1], seen + [x])
  {
    assert x !in keys;
    DistinctStep(seen, x);
    assert keys + [x] == Distinct(seen + [x]);
    var c := counts[x := 1];
    assert forall a :: a in c <==> a in keys + [x];
    var m := multiset(seen + [x]);
    assert m == multiset(seen) + multiset{x};
    forall a | a in c ensures c[a] == m[a] {
      if a != x {
        assert c[a] == counts[a];
      }
    }
  }

  /** An answer already counted keeps its place among the keys and counts one more. */
  lemma TallyKnown(keys: seq<Answer>, counts: map<Answer, nat>, seen: seq<Answer>, x: Answer)
    requires Tallied(keys, counts, seen)
    requires x in counts
    ensures Tallied(keys, counts[x := counts[x] + 1], seen + [x])
  {
    DistinctStep(seen, x);
    var c := counts[x := counts[x] + 1];
    var m := multiset(seen + [x]);
    assert m == multiset(seen) + multiset{x};
    forall a | a in c ensures c[a] == m[a] {
      if a != x {
        assert c[a] == counts[a];
      }
    }
  }

  /** `counts.items()`: each key in insertion order, with its count. */
  function CountItems(keys: seq<Answer>, counts: map<Answer, nat>): seq<Count>
    requires forall a :: a in keys ==> a in counts
  {
    seq(|keys|, i requires 0 <= i < |keys| => Count(keys[i], counts[keys[i]]))
  }

  lemma ItemsFromCounts(keys: seq<Answer>, counts: map<Answer, nat>, s: seq<Answer>)
    requires Tallied(keys, counts, s)
    ensures CountItems(keys, counts) == ItemsOf(keys, s)
  {
  }

  lemma DistinctStep(p: seq<Answer>, x: Answer)
    ensures Distinct(p + [x]) == if x in Distinct(p) then Distinct(p) else Distinct(p) + [x]
  {
    assert (p + [x])[..|p|] == p;
  }

  /**
    `t` with `x` placed after every item whose count is at least that of
    `x`: where a stable sort by count, descending, puts an item that came
    after all of `t`.
  */
  function Insert(t: seq<Count>, x: Count): (r: seq<Count>)
    ensures multiset(r) == multiset(t) + multiset{x}
  {
    if t == [] then [x]
    else if t[|t| - 1].times >= x.times then t + [x]
    else
      var p := t[..|t| - 1];
      assert t == p + [t[|t| - 1]];
      Insert(p, x) + [t[|t| - 1]]
  }

  /** `sorted(t, key=lambda kv: kv[1], reverse=True)`: a stable sort by count, descending. */
  function SortByTimes(t: seq<Count>): (r: seq<Count>)
    ensures multiset(r) == multiset(t)
  {
    if t == [] then []
    else
      var p := t[..|t| - 1];
      assert t == p + [t[|t| - 1]];
      Insert(SortByTimes(p), t[|t| - 1])
  }

  /** The summary of one question's answers: `sorted_results[question]`. */
  function Summary(s: seq<Answer>): seq<Count> {
    SortByTimes(Items(s))
  }

  /** The total of the counts. */
  function SumTimes(t: seq<Count>): nat {
    if t == [] then 0 else SumTimes(t[..|t| - 1]) + t[|t| - 1].times
  }

  /** Every answer, at most once. */
  predicate DistinctAnswers(t: seq<Count>) {
    forall i, j :: 0 <= i < j < |t| ==> t[i].answer != t[j].answer
  }

  /** `a` may come before `b`: a higher count, or an equal count and an earlier first occurrence in `s`. */
  predicate Before(a: Count, b: Count, s: seq<Answer>) {
    || a.times > b.times
    || (a.times == b.times && FirstIndex(s, a.answer) < FirstIndex(s, b.answer))
  }

  /**
    Sorted by count, descending, and among equal counts by where the answer
    first occurs in `s`.
  */
  predicate Ordered(t: seq<Count>, s: seq<Answer>) {
    forall i, j :: 0 <= i < j < |t| ==> Before(t[i], t[j], s)
  }

  // ----- Counting -----

  /** The counting loop lists every answer of `s` once, with the number of times it occurs. */
  lemma ItemsExact(s: seq<Answer>)
    ensures forall a :: a in s <==> exists i :: 0 <= i < |Items(s)| && Items(s)[i].answer == a
    ensures DistinctAnswers(Items(s))
    ensures forall i :: 0 <= i < |Items(s)| ==> Items(s)[i].times == multiset(s)[Items(s)[i].answer]
  {
    var d := Distinct(s);
    forall a | a in s ensures exists i :: 0 <= i < |Items(s)| && Items(s)[i].answer == a {
      var i :| 0 <= i < |d| && d[i] == a;
      assert Items(s)[i].answer == a;
    }
  }

  /** The counts of `keys` total how many elements of `s` are among `keys`. */
  function SumOcc(keys: seq<Answer>, s: seq<Answer>): nat {
    if keys == [] then 0 else SumOcc(keys[..|keys| - 1], s) + multiset(s)[keys[|keys| - 1]]
  }

  lemma {:induction false} SumTimesItemsOf(keys: seq<Answer>, s: seq<Answer>)
    ensures SumTimes(ItemsOf(keys, s)) == SumOcc(keys, s)
  {
    if keys != [] {
      var p := keys[..|keys| - 1];
      assert ItemsOf(keys, s)[..|keys| - 1] == ItemsOf(p, s);
      SumTimesItemsOf(p, s);
    }
  }

  /** Adding `x` to `s` raises the counts of `keys` by the number of times `x` is among them. */
  lemma {:induction false} SumOccStep(keys: seq<Answer>, p: seq<Answer>, x: Answer)
    ensures SumOcc(keys, p + [x]) == SumOcc(keys, p) + multiset(keys)[x]
  {
    if keys != [] {
      var q := keys[..|keys| - 1];
      assert keys == q + [keys[|keys| - 1]];
      SumOccStep(q, p, x);
    }
  }

  lemma {:induction false} DistinctOnce(d: seq<Answer>, x: Answer)
    requires forall i, j :: 0 <= i < j < |d| ==> d[i] != d[j]
    requires x in d
    ensures multiset(d)[x] == 1
  {
    var p := d[..|d| - 1];
    assert d == p + [d[|d| - 1]];
    if d[|d| - 1] == x {
      assert x !in p;
    } else {
      DistinctOnce(p, x);
    }
  }

  lemma {:induction false} SumOccDistinct(s: seq<Answer>)
    ensures SumOcc(Distinct(s), s) == |s|
  {
    if s != [] {
      var p, x := s[..|s| - 1], s[|s| - 1];
      assert s == p + [x];
      SumOccDistinct(p);
      var d0 := Distinct(p);
      SumOccStep(d0, p, x);
      if x in d0 {
        DistinctOnce(d0, x);
      } else {
        assert multiset(d0)[x] == 0;
        assert multiset(p)[x] == 0;
        assert (d0 + [x])[..|d0|] == d0;
      }
    }
  }

  /** The counts of a question's summary add up to its number of answers. */
  lemma ItemsSum(s: seq<Answer>)
    ensures SumTimes(Items(s)) == |s|
  {
    SumTimesItemsOf(Distinct(s), s);
    SumOccDistinct(s);
  }

  // ----- Sorting -----

  lemma {:induction false} SumTimesInsert(t: seq<Count>, x: Count)
    ensures SumTimes(Insert(t, x)) == SumTimes(t) + x.times
  {
    if t != [] && t[|t| - 1].times < x.times {
      var p := t[..|t| - 1];
      SumTimesInsert(p, x);
      var r := Insert(p, x) + [t[|t| - 1]];
      assert r[..|r| - 1] == Insert(p, x);
    } else if t != [] {
      assert (t + [x])[..|t|] == t;
    }
  }

  /** Sorting keeps the total of the counts. */
  lemma {:induction false} SumTimesSort(t: seq<Count>)
    ensures SumTimes(SortByTimes(t)) == SumTimes(t)
  {
    if t != [] {
      var p := t[..|t| - 1];
      SumTimesSort(p);
      SumTimesInsert(SortByTimes(p), t[|t| - 1]);
    }
  }

  lemma {:induction false} InsertDistinct(t: seq<Count>, x: Count)
    requires DistinctAnswers(t)
    requires forall c :: c in t ==> c.answer != x.answer
    ensures DistinctAnswers(Insert(t, x))
  {
    if t != [] && t[|t| - 1].times < x.times {
      var p, last := t[..|t| - 1], t[|t| - 1];
      assert t == p + [last];
      DistinctPrefix(t);
      InsertDistinct(p, x);
      var q := Insert(p, x);
      forall c | c in q ensures c.answer != last.answer {
        assert c in multiset(q);
        if c != x {
          var i :| 0 <= i < |p| && p[i] == c;
          assert t[i] == c && t[|p|] == last;
        }
      }
      DistinctAppend(q, last);
    } else {
      DistinctAppend(t, x);
    }
  }

  lemma DistinctPrefix(t: seq<Count>)
    requires t != [] && DistinctAnswers(t)
    ensures DistinctAnswers(t[..|t| - 1])
  {
    var p := t[..|t| - 1];
    forall i, j | 0 <= i < j < |p| ensures p[i].answer != p[j].answer {
      assert p[i] == t[i] && p[j] == t[j];
    }
  }

  lemma DistinctAppend(t: seq<Count>, x: Count)
    requires DistinctAnswers(t)
    requires forall c :: c in t ==> c.answer != x.answer
    ensures DistinctAnswers(t + [x])
  {
    forall i, j | 0 <= i < j < |t + [x]| ensures (t + [x])[i].answer != (t + [x])[j].answer {
      if j == |t| {
        assert t[i] in t;
      }
    }
  }

  /** Sorting lists every answer at most once when the input does. */
  lemma {:induction false} SortDistinct(t: seq<Count>)
    requires DistinctAnswers(t)
    ensures DistinctAnswers(SortByTimes(t))
  {
    if t != [] {
      var p, x := t[..|t| - 1], t[|t| - 1];
      assert t == p + [x];
      SortDistinct(p);
      forall c | c in SortByTimes(p) ensures c.answer != x.answer {
        assert c in multiset(SortByTimes(p));
      }
      InsertDistinct(SortByTimes(p), x);
    }
  }

  lemma OrderedAppend(t: seq<Count>, x: Count, s: seq<Answer>)
    requires Ordered(t, s)
    requires forall c :: c in t ==> Before(c, x, s)
    ensures Ordered(t + [x], s)
  {
    forall i, j | 0 <= i < j < |t + [x]| ensures Before((t + [x])[i], (t + [x])[j], s) {
      if j == |t| {
        assert t[i] in t;
      }
    }
  }

  lemma {:induction false} InsertOrdered(t: seq<Count>, x: Count, s: seq<Answer>)
    requires Ordered(t, s)
    requires forall c :: c in t ==> FirstIndex(s, c.answer) < FirstIndex(s, x.answer)
    ensures Ordered(Insert(t, x), s)
  {
    if t != [] {
      var p, last := t[..|t| - 1], t[|t| - 1];
      if last.times >= x.times {
        AllBefore(t, x, s);
        OrderedAppend(t, x, s);
      } else {
        OrderedPrefix(t, s);
        assert t == p + [last];
        InsertOrdered(p, x, s);
        InsertBeforeLast(p, last, x, s);
        OrderedAppend(Insert(p, x), last, s);
      }
    }
  }

  lemma OrderedPrefix(t: seq<Count>, s: seq<Answer>)
    requires t != [] && Ordered(t, s)
    ensures Ordered(t[..|t| - 1], s)
  {
    var p := t[..|t| - 1];
    forall i, j | 0 <= i < j < |p| ensures Before(p[i], p[j], s) {
      assert p[i] == t[i] && p[j] == t[j];
    }
  }

  /** When the last item's count is at least that of `x`, every item may come before `x`. */
  lemma AllBefore(t: seq<Count>, x: Count, s: seq<Answer>)
    requires t != [] && Ordered(t, s) && t[|t| - 1].times >= x.times
    requires forall c :: c in t ==> FirstIndex(s, c.answer) < FirstIndex(s, x.answer)
    ensures forall c :: c in t ==> Before(c, x, s)
  {
    forall c | c in t ensures Before(c, x, s) {
      var i :| 0 <= i < |t| && t[i] == c;
      assert i == |t| - 1 || Before(t[i], t[|t| - 1], s);
    }
  }

  /** When `x` counts more than the last item, everything `Insert` places before that item may come before it. */
  lemma InsertBeforeLast(p: seq<Count>, last: Count, x: Count, s: seq<Answer>)
    requires Ordered(p + [last], s) && last.times < x.times
    ensures forall c :: c in Insert(p, x) ==> Before(c, last, s)
  {
    var t, q := p + [last], Insert(p, x);
    forall c | c in q ensures Before(c, last, s) {
      assert c in multiset(q);
      if c != x {
        var i :| 0 <= i < |p| && p[i] == c;
        assert t[i] == c && t[|p|] == last;
      }
    }
  }

  /** Sorting an input listed in order of first occurrence gives counts descending, ties in that order. */
  lemma {:induction false} SortOrdered(t: seq<Count>, s: seq<Answer>)
    requires forall i, j :: 0 <= i < j < |t| ==> FirstIndex(s, t[i].answer) < FirstIndex(s, t[j].answer)
    ensures Ordered(SortByTimes(t), s)
  {
    if t != [] {
      var p, x := t[..|t| - 1], t[|t| - 1];
      assert t == p + [x];
      SortOrdered(p, s);
      forall c | c in SortByTimes(p) ensures FirstIndex(s, c.answer) < FirstIndex(s, x.answer) {
        assert c in multiset(p);
      }
      InsertOrdered(SortByTimes(p), x, s);
    }
  }

  lemma {:induction false} DistinctFirstSeen(s: seq<Answer>)
    ensures forall i, j :: 0 <= i < j < |Distinct(s)| ==> FirstIndex(s, Distinct(s)[i]) < FirstIndex(s, Distinct(s)[j])
  {
    if s != [] {
      var p, x := s[..|s| - 1], s[|s| - 1];
      assert s == p + [x];
      DistinctFirstSeen(p);
    }
  }

  // ----- The summary of one question -----

  /**
    The summary lists each distinct answer of the question exactly once,
    with the number of times it was given.
  */
  lemma SummaryListsEachAnswerOnce(s: seq<Answer>)
    ensures forall a :: a in s <==> exists i :: 0 <= i < |Summary(s)| && Summary(s)[i].answer == a
    ensures DistinctAnswers(Summary(s))
    ensures forall i :: 0 <= i < |Summary(s)| ==> Summary(s)[i].times == multiset(s)[Summary(s)[i].answer]
  {
    var items, r := Items(s), Summary(s);
    ItemsExact(s);
    SortDistinct(items);
    forall a | a in s ensures exists i :: 0 <= i < |r| && r[i].answer == a {
      var k :| 0 <= k < |items| && items[k].answer == a;
      assert items[k] in multiset(r);
    }
    forall i | 0 <= i < |r| ensures r[i].answer in s && r[i].times == multiset(s)[r[i].answer] {
      assert r[i] in multiset(items);
    }
  }

  /** The counts of the summary add up to the number of answers the question has. */
  lemma SummarySum(s: seq<Answer>)
    ensures SumTimes(Summary(s)) == |s|
  {
    SumTimesSort(Items(s));
    ItemsSum(s);
  }

  /**
    The summary is non-increasing in count, and answers with equal counts
    keep the order in which they were first given.
  */
  lemma SummaryOrdered(s: seq<Answer>)
    ensures forall i, j :: 0 <= i < j < |Summary(s)| ==> Summary(s)[i].times >= Summary(s)[j].times
    ensures forall i, j :: 0 <= i < j < |Summary(s)| && Summary(s)[i].times == Summary(s)[j].times ==>
      FirstIndex(s, Summary(s)[i].answer) < FirstIndex(s, Summary(s)[j].answer)
  {
    DistinctFirstSeen(s);
    SortOrdered(Items(s), s);
  }

  /** One question's summary: its answers counted, then sorted by count. */
  method SummariseAnswers(answers: seq<Answer>) returns (summary: seq<Count>)
    ensures summary == Summary(answers)
  {
    var items := CountAnswers(answers);
    summary := SortByTimes(items);
  }

  /** The summary loop over the questions of `results`, walked in insertion order. */
  method SummariseResults(st: State) returns (sorted: map<string, seq<Count>>)
    requires forall q :: q in st.results <==> q in st.order
    ensures forall q :: q in sorted <==> q in st.results
    ensures forall q :: q in sorted ==> sorted[q] == Summary(st.results[q])
  {
    sorted := map[];
    var i := 0;
    while i < |st.order|
      invariant 0 <= i <= |st.order|
      invariant forall q :: q in sorted <==> q in st.order[..i]
      invariant forall q :: q in sorted ==> q in st.results && sorted[q] == Summary(st.results[q])
    {
      var question := st.order[i];
      var summary := SummariseAnswers(st.results[question]);
      sorted := sorted[question := summary];
      assert st.order[..i + 1] == st.order[..i] + [question];
      i := i + 1;
    }
    assert st.order[..i] == st.order;
  }

  // ----- Means -----

  /** Why `statistics.mean` raises: no data, or an answer that is not a number. */
  datatype MeanError = EmptyData | NotANumber

  /** What the mean is computed from: the sum and the number of the answers. */
  datatype MeanParts = MeanParts(total: nat, count: nat)

  function SumNums(s: seq<Answer>): nat {
    if s == [] then 0
    else SumNums(s[..|s| - 1]) + (if s[|s| - 1].Num? then s[|s| - 1].n else 0)
  }

  /** `mean(answers)` up to the division: the error it raises, or its sum and count. */
  function MeanInput(s: seq<Answer>): (r: Result<MeanParts, MeanError>)
    ensures r.Ok? <==> s != [] && AllNum(s)
    ensures r == Err(EmptyData) <==> s == []
    ensures r.Ok? ==> r.value.count == |s|
    ensures r.Ok? ==> r.value.total == SumNums(s)
  {
    if s == [] then Err(EmptyData)
    else if !AllNum(s) then Err(NotANumber)
    else Ok(MeanParts(SumNums(s), |s|))
  }

  /** The sum of the answers of two batches is the sum of the two sums. */
  lemma {:induction false} SumNumsAppend(a: seq<Answer>, b: seq<Answer>)
    ensures SumNums(a + b) == SumNums(a) + SumNums(b)
    decreases |b|
  {
    if b != [] {
      var init := b[..|b| - 1];
      assert (a + b)[..|a + b| - 1] == a + init;
      SumNumsAppend(a, init);
      assert (a + b)[|a + b| - 1] == b[|b| - 1];
    } else {
      assert a + b == a;
    }
  }

  /** One number on its own sums to itself. */
  lemma SumNumsSingle(n: nat)
    ensures SumNums([Num(n)]) == n
  {
    assert [Num(n)][..0] == [];
  }

  /** Four numeric answers 8, 9, 10 and 7: `mean` sums 34 over 4 answers. */
  lemma MeanInputExample()
    ensures MeanInput([Num(8), Num(9), Num(10), Num(7)]) == Ok(MeanParts(34, 4))
  {
    var s := [Num(8), Num(9), Num(10), Num(7)];
    assert s == [Num(8)] + [Num(9)] + [Num(10)] + [Num(7)];
    SumNumsSingle(8);
    SumNumsSingle(9);
    SumNumsSingle(10);
    SumNumsSingle(7);
    SumNumsAppend([Num(8)], [Num(9)]);
    SumNumsAppend([Num(8)] + [Num(9)], [Num(10)]);
    SumNumsAppend([Num(8)] + [Num(9)] + [Num(10)], [Num(7)]);
  }

  /** The mean loop: `mean` for every question in `number_questions`. */
  function MeanInputs(st: State): map<string, Result<MeanParts, MeanError>> {
    map q | q in st.numeric && q in st.results :: MeanInput(st.results[q])
  }

  /**
    As written, `number_questions` is complete: a question whose answers
    are all ints is in it.
  */
  lemma EnterKeepsComplete(st: State, key: string, val: seq<string>)
    requires forall k :: k in st.results && AllNum(st.results[k]) ==> k in st.numeric
    ensures var r := Enter(st, key, val);
      forall k :: k in r.results && AllNum(r.results[k]) ==> k in r.numeric
  {
    AllNumAppend(Prior(st, key), Entries(val));
    EntriesAllNum(val);
  }

  /**
    As written, `number_questions` is not sound: a question answered with a
    number in one mail and with text in another stays in it, in either
    order, and `mean` then raises on its answers.
  */
  lemma NumericThenTextBreaksMean(key: string, n: nat, t: string)
    requires CheckUint(t).None?
    ensures var st := Enter(Enter(Empty, key, [Decimal(n)]), key, [t]);
      key in st.numeric && MeanInput(st.results[key]) == Err(NotANumber)
    ensures var st := Enter(Enter(Empty, key, [t]), key, [Decimal(n)]);
      key in st.numeric && MeanInput(st.results[key]) == Err(NotANumber)
  {
    DecimalChecks(n);
    EntriesAllNum([t]);
    AllNumAppend(Entries([Decimal(n)]), Entries([t]));
    AllNumAppend(Entries([t]), Entries([Decimal(n)]));
  }

  lemma DecimalChecks(n: nat)
    ensures CheckUint(Decimal(n)) == Some(n)
    ensures AllNumbers([Decimal(n)])
  {
    CheckUintOfDecimal(n);
    assert [Decimal(n)][0] == Decimal(n);
  }

  /**
    With the corrected rule, `number_questions` stays exact, and then every
    mean the mean loop computes is defined, since no question is without
    answers.
  */
  lemma MeanDefinedForNumeric(st: State)
    requires NumericExact(st)
    requires NoEmptyAnswers(st)
    ensures forall q :: q in MeanInputs(st) ==> MeanInputs(st)[q].Ok?
  {
  }

  /**
    With the corrected rule, the mean loop after any sequence of mails
    computes a defined mean for every question in `number_questions`, and
    misses none whose answers are all ints.
  */
  lemma CorrectedMeansDefined(msgs: seq<Message>, filter: string)
    ensures var st := AbsorbAllDowngrading(Empty, msgs, filter);
      && (forall q :: q in MeanInputs(st) ==> MeanInputs(st)[q].Ok?)
      && (forall q :: q in st.results && AllNum(st.results[q]) ==> q in MeanInputs(st))
  {
    AbsorbAllDowngradingExact(Empty, msgs, filter);
    MeanDefinedForNumeric(AbsorbAllDowngrading(Empty, msgs, filter));
  }
}
