/**
  The aggregator: `make_entry` and the global `results` dict and
  `number_questions` set it updates, and the loop that feeds it the pairs of
  every mail whose subject is the filter subject.
*/
module Aggregate {
  import opened Wrappers
  import opened Numbers
  import opened Extract

  /** An entry of `results[question]`: the int `check_uint` gave, or the fragment kept as a string. */
  datatype Answer = Num(n: nat) | Text(s: string)

  /**
    A mail as the extraction loop sees it: its decoded subject, and the
    blocks of its `mcnTextContent` wrapper, each a `<td>`'s child nodes as
    strings. `None` stands for every failure the bare `except` swallows:
    no payload, a payload that is not UTF-8, or no wrapper.
  */
  datatype Message = Message(subject: string, content: Option<seq<seq<string>>>)

  /** Every fragment of `val` passes `check_uint`. */
  predicate AllNumbers(val: seq<string>) {
    forall i :: 0 <= i < |val| ==> CheckUint(val[i]).Some?
  }

  /** Every entry is an int. */
  predicate AllNum(s: seq<Answer>) {
    forall i :: 0 <= i < |s| ==> s[i].Num?
  }

  /** What `check_uint` says about each fragment, in order. */
  function Checks(val: seq<string>): (c: seq<Option<nat>>)
    ensures |c| == |val|
  {
    seq(|val|, i requires 0 <= i < |val| => CheckUint(val[i]))
  }

  /** The index of the first failed check, or `|c|` when there is none. */
  function FirstNone(c: seq<Option<nat>>): (k: nat)
    ensures k <= |c|
    ensures forall i :: 0 <= i < k ==> c[i].Some?
    ensures k == |c| || c[k].None?
  {
    if c == [] || c[0].None? then 0 else 1 + FirstNone(c[1..])
  }

  /**
    The entries `make_entry` appends for `val`: once a fragment fails
    `check_uint`, the flag drops and that fragment and all later ones stay
    strings.
  */
  function Entries(val: seq<string>): (r: seq<Answer>)
    ensures |r| == |val|
  {
    var c := Checks(val);
    var k := FirstNone(c);
    seq(|val|, i requires 0 <= i < |val| => if i < k then Num(c[i].value) else Text(val[i]))
  }

  /**
    The i-th entry is an int exactly when fragments 0..i all pass
    `check_uint`, and then it is the value `check_uint` gives; otherwise it
    is the fragment itself.
  */
  lemma EntriesShape(val: seq<string>)
    ensures |Entries(val)| == |val|
    ensures forall i :: 0 <= i < |val| ==>
      (Entries(val)[i].Num? <==> forall m :: 0 <= m <= i ==> CheckUint(val[m]).Some?)
    ensures forall i :: 0 <= i < |val| && Entries(val)[i].Num? ==> CheckUint(val[i]) == Some(Entries(val)[i].n)
    ensures forall i :: 0 <= i < |val| && Entries(val)[i].Text? ==> Entries(val)[i].s == val[i]
  {
    var c := Checks(val);
    var k := FirstNone(c);
    forall i | 0 <= i < |val|
      ensures Entries(val)[i].Num? <==> forall m :: 0 <= m <= i ==> CheckUint(val[m]).Some?
    {
      if i < k {
        forall m | 0 <= m <= i ensures CheckUint(val[m]).Some? {
          assert c[m] == CheckUint(val[m]);
        }
      } else {
        assert c[k] == CheckUint(val[k]);
      }
    }
    forall i | 0 <= i < |val| && Entries(val)[i].Num?
      ensures CheckUint(val[i]) == Some(Entries(val)[i].n)
    {
      assert c[i] == CheckUint(val[i]);
    }
  }

  /** What the loop of `make_entry` appends at index `i`, by the state of its flag. */
  lemma EntryAt(val: seq<string>, i: nat)
    requires i < |val|
    ensures var k := FirstNone(Checks(val));
      && (i < k ==> CheckUint(val[i]).Some? && Entries(val)[i] == Num(CheckUint(val[i]).value))
      && (i == k ==> CheckUint(val[i]).None?)
      && (i >= k ==> Entries(val)[i] == Text(val[i]))
  {
    assert Checks(val)[i] == CheckUint(val[i]);
  }

  lemma AllNumbersChecks(val: seq<string>)
    ensures AllNumbers(val) <==> FirstNone(Checks(val)) == |val|
  {
    var c := Checks(val);
    var k := FirstNone(c);
    if k < |val| {
      assert c[k] == CheckUint(val[k]);
    } else {
      forall i | 0 <= i < |val| ensures CheckUint(val[i]).Some? {
        assert c[i] == CheckUint(val[i]);
      }
    }
  }

  /** The entries are all ints exactly when every fragment passed. */
  lemma EntriesAllNum(val: seq<string>)
    ensures AllNum(Entries(val)) <==> AllNumbers(val)
  {
    AllNumbersChecks(val);
    var k := FirstNone(Checks(val));
    if k < |val| {
      assert Entries(val)[k].Text?;
    }
  }

  /**
    The aggregator's state as a value: `results`, the order in which its
    keys were inserted (the order `results.items()` walks), and
    `number_questions`.
  */
  datatype State = State(results: map<string, seq<Answer>>, order: seq<string>, numeric: set<string>)

  const Empty := State(map[], [], {})

  /** The order lists each key of `results` once, and numeric questions are keys. */
  ghost predicate Valid(st: State) {
    && (forall i, j :: 0 <= i < j < |st.order| ==> st.order[i] != st.order[j])
    && (forall k :: k in st.results <==> k in st.order)
    && st.numeric <= st.results.Keys
  }

  /** `results[key]`, or the empty list `make_entry` creates for a new key. */
  function Prior(st: State, key: string): seq<Answer> {
    if key in st.results then st.results[key] else []
  }

  /** `make_entry(key, val)` as written: `number_questions` only ever gains keys. */
  function Enter(st: State, key: string, val: seq<string>): State {
    State(
      st.results[key := Prior(st, key) + Entries(val)],
      if key in st.results then st.order else st.order + [key],
      if AllNumbers(val) then st.numeric + {key} else st.numeric)
  }

  /**
    `make_entry` appends exactly one entry per fragment, in order, after the
    key's earlier entries; it changes no other key; a new key goes last in
    the dict's insertion order, a known one leaves that order as it was; and
    it adds `key` to `number_questions` exactly when every fragment passed,
    removing nothing.
  */
  lemma EnterEffect(st: State, key: string, val: seq<string>)
    ensures var r := Enter(st, key, val);
      && key in r.results
      && r.results[key] == Prior(st, key) + Entries(val)
      && (forall k :: k != key ==> (k in r.results <==> k in st.results))
      && (forall k :: k != key && k in st.results ==> r.results[k] == st.results[k])
      && (key in r.numeric <==> key in st.numeric || AllNumbers(val))
      && (forall k :: k != key ==> (k in r.numeric <==> k in st.numeric))
      && r.order == (if key in st.results then st.order else st.order + [key])
  {
  }

  /** `make_entry` keeps the state well formed. */
  lemma EnterKeepsValid(st: State, key: string, val: seq<string>)
    requires Valid(st)
    ensures Valid(Enter(st, key, val))
  {
    var r := Enter(st, key, val);
    if key !in st.results {
      forall i, j | 0 <= i < j < |r.order| ensures r.order[i] != r.order[j] {
        if j == |st.order| {
          assert st.order[i] in st.results;
        }
      }
    }
  }

  /** `make_entry` for each pair, in order. */
  function EnterPairs(st: State, ps: seq<Pair>): State {
    if ps == [] then st
    else
      var last := ps[|ps| - 1];
      Enter(EnterPairs(st, ps[..|ps| - 1]), last.question, last.fragments)
  }

  /**
    One pass of the mail loop: a mail whose subject is not the filter, or
    whose content cannot be read, is skipped; otherwise its pairs are
    entered (none when its counts differ).
  */
  function Absorb(st: State, m: Message, filter: string): State {
    if m.subject != filter then st
    else match m.content
      case None => st
      case Some(blocks) => EnterPairs(st, Pairs(blocks))
  }

  /** The whole mail loop. */
  function AbsorbAll(st: State, msgs: seq<Message>, filter: string): State {
    if msgs == [] then st
    else Absorb(AbsorbAll(st, msgs[..|msgs| - 1], filter), msgs[|msgs| - 1], filter)
  }

  /** The questions a mail enters: none unless it is accepted and its counts agree. */
  function MessageQuestions(m: Message, filter: string): set<string> {
    if m.subject != filter || m.content.None? then {}
    else QuestionSet(Pairs(m.content.value))
  }

  /** The questions of a list of pairs. */
  function QuestionSet(ps: seq<Pair>): (qs: set<string>)
    ensures forall i :: 0 <= i < |ps| ==> ps[i].question in qs
    ensures forall q :: q in qs ==> exists i :: 0 <= i < |ps| && ps[i].question == q
  {
    if ps == [] then {}
    else QuestionSet(ps[..|ps| - 1]) + {ps[|ps| - 1].question}
  }

  function AllQuestions(msgs: seq<Message>, filter: string): set<string> {
    if msgs == [] then {}
    else AllQuestions(msgs[..|msgs| - 1], filter) + MessageQuestions(msgs[|msgs| - 1], filter)
  }

  /**
    A mail with another subject, no readable content or a question count
    that differs from its answer-list count changes nothing at all.
  */
  lemma RejectedMessageChangesNothing(st: State, m: Message, filter: string)
    requires || m.subject != filter
             || m.content.None?
             || |Questions(m.content.value)| != |AnswerLists(m.content.value)|
    ensures Absorb(st, m, filter) == st
  {
  }

  lemma {:induction false} EnterPairsGrows(st: State, ps: seq<Pair>)
    ensures st.numeric <= EnterPairs(st, ps).numeric
    ensures st.results.Keys <= EnterPairs(st, ps).results.Keys
  {
    if ps != [] {
      EnterPairsGrows(st, ps[..|ps| - 1]);
    }
  }

  /** `number_questions` and the key set of `results` never lose an element over the mail loop. */
  lemma {:induction false} NumericOnlyGrows(st: State, msgs: seq<Message>, filter: string)
    ensures st.numeric <= AbsorbAll(st, msgs, filter).numeric
    ensures st.results.Keys <= AbsorbAll(st, msgs, filter).results.Keys
  {
    if msgs != [] {
      var init := AbsorbAll(st, msgs[..|msgs| - 1], filter);
      NumericOnlyGrows(st, msgs[..|msgs| - 1], filter);
      var m := msgs[|msgs| - 1];
      if m.subject == filter && m.content.Some? {
        EnterPairsGrows(init, Pairs(m.content.value));
      }
    }
  }

  lemma {:induction false} EnterPairsKeys(st: State, ps: seq<Pair>)
    ensures EnterPairs(st, ps).results.Keys == st.results.Keys + QuestionSet(ps)
  {
    if ps != [] {
      EnterPairsKeys(st, ps[..|ps| - 1]);
    }
  }

  /** After the mail loop, the questions of `results` are the earlier ones and the questions of the pairs entered. */
  lemma {:induction false} KeysAreEnteredQuestions(st: State, msgs: seq<Message>, filter: string)
    ensures AbsorbAll(st, msgs, filter).results.Keys == st.results.Keys + AllQuestions(msgs, filter)
  {
    if msgs != [] {
      var init := AbsorbAll(st, msgs[..|msgs| - 1], filter);
      KeysAreEnteredQuestions(st, msgs[..|msgs| - 1], filter);
      var m := msgs[|msgs| - 1];
      if m.subject == filter && m.content.Some? {
        EnterPairsKeys(init, Pairs(m.content.value));
      }
    }
  }

  lemma {:induction false} EnterPairsKeepsValid(st: State, ps: seq<Pair>)
    requires Valid(st)
    ensures Valid(EnterPairs(st, ps))
  {
    if ps != [] {
      EnterPairsKeepsValid(st, ps[..|ps| - 1]);
      var last := ps[|ps| - 1];
      EnterKeepsValid(EnterPairs(st, ps[..|ps| - 1]), last.question, last.fragments);
    }
  }

  /** The mail loop keeps the state well formed. */
  lemma {:induction false} AbsorbAllKeepsValid(st: State, msgs: seq<Message>, filter: string)
    requires Valid(st)
    ensures Valid(AbsorbAll(st, msgs, filter))
  {
    if msgs != [] {
      AbsorbAllKeepsValid(st, msgs[..|msgs| - 1], filter);
      var m := msgs[|msgs| - 1];
      if m.subject == filter && m.content.Some? {
        EnterPairsKeepsValid(AbsorbAll(st, msgs[..|msgs| - 1], filter), Pairs(m.content.value));
      }
    }
  }

  /** Every question has at least one answer. */
  predicate NoEmptyAnswers(st: State) {
    forall k :: k in st.results ==> st.results[k] != []
  }

  lemma {:induction false} EnterPairsNonEmpty(st: State, ps: seq<Pair>)
    requires NoEmptyAnswers(st)
    requires forall i :: 0 <= i < |ps| ==> ps[i].fragments != []
    ensures NoEmptyAnswers(EnterPairs(st, ps))
  {
    if ps != [] {
      EnterPairsNonEmpty(st, ps[..|ps| - 1]);
      var last := ps[|ps| - 1];
      var init := EnterPairs(st, ps[..|ps| - 1]);
      assert |Entries(last.fragments)| > 0;
      assert |Prior(init, last.question) + Entries(last.fragments)| > 0;
    }
  }

  /**
    Since a block without fragments gives no answer list, every question
    the mail loop enters has at least one answer.
  */
  lemma {:induction false} AbsorbAllNonEmpty(st: State, msgs: seq<Message>, filter: string)
    requires NoEmptyAnswers(st)
    ensures NoEmptyAnswers(AbsorbAll(st, msgs, filter))
  {
    if msgs != [] {
      AbsorbAllNonEmpty(st, msgs[..|msgs| - 1], filter);
      var m := msgs[|msgs| - 1];
      if m.subject == filter && m.content.Some? {
        PairsAllOrNothing(m.content.value);
        EnterPairsNonEmpty(AbsorbAll(st, msgs[..|msgs| - 1], filter), Pairs(m.content.value));
      }
    }
  }

  /**
    `make_entry` with the rule the mean computation relies on: a question
    stays numeric only while all of its answers, old and new, are ints.
  */
  function EnterDowngrading(st: State, key: string, val: seq<string>): State {
    var wasNumeric := key !in st.results || key in st.numeric;
    State(
      st.results[key := Prior(st, key) + Entries(val)],
      if key in st.results then st.order else st.order + [key],
      if wasNumeric && AllNumbers(val) then st.numeric + {key} else st.numeric - {key})
  }

  /** `number_questions` holds exactly the questions whose answers are all ints. */
  ghost predicate NumericExact(st: State) {
    forall k :: k in st.numeric <==> k in st.results && AllNum(st.results[k])
  }

  lemma AllNumAppend(a: seq<Answer>, b: seq<Answer>)
    ensures AllNum(a + b) <==> AllNum(a) && AllNum(b)
  {
    if AllNum(a + b) {
      forall i | 0 <= i < |a| ensures a[i].Num? {
        assert (a + b)[i] == a[i];
      }
      forall i | 0 <= i < |b| ensures b[i].Num? {
        assert (a + b)[|a| + i] == b[i];
      }
    }
    if AllNum(a) && AllNum(b) {
      forall i | 0 <= i < |a + b| ensures (a + b)[i].Num? {
        if i < |a| {
          assert (a + b)[i] == a[i];
        } else {
          assert (a + b)[i] == b[i - |a|];
        }
      }
    }
  }

  /** The corrected rule keeps `number_questions` exact. */
  lemma EnterDowngradingKeepsExact(st: State, key: string, val: seq<string>)
    requires NumericExact(st)
    ensures NumericExact(EnterDowngrading(st, key, val))
  {
    AllNumAppend(Prior(st, key), Entries(val));
    EntriesAllNum(val);
  }

  /** The mail loop's pairs entered with the corrected rule. */
  function EnterPairsDowngrading(st: State, ps: seq<Pair>): State {
    if ps == [] then st
    else
      var last := ps[|ps| - 1];
      EnterDowngrading(EnterPairsDowngrading(st, ps[..|ps| - 1]), last.question, last.fragments)
  }

  /** The whole mail loop with the corrected rule. */
  function AbsorbAllDowngrading(st: State, msgs: seq<Message>, filter: string): State {
    if msgs == [] then st
    else
      var before := AbsorbAllDowngrading(st, msgs[..|msgs| - 1], filter);
      var m := msgs[|msgs| - 1];
      if m.subject != filter || m.content.None? then before
      else EnterPairsDowngrading(before, Pairs(m.content.value))
  }

  /** The corrected rule changes `number_questions` only: `results` and its order are those of the code as written. */
  lemma {:induction false} DowngradingKeepsResults(st: State, msgs: seq<Message>, filter: string)
    ensures AbsorbAllDowngrading(st, msgs, filter).results == AbsorbAll(st, msgs, filter).results
    ensures AbsorbAllDowngrading(st, msgs, filter).order == AbsorbAll(st, msgs, filter).order
  {
    if msgs != [] {
      DowngradingKeepsResults(st, msgs[..|msgs| - 1], filter);
      var m := msgs[|msgs| - 1];
      if m.subject == filter && m.content.Some? {
        PairsDowngradingKeepResults(
          AbsorbAllDowngrading(st, msgs[..|msgs| - 1], filter),
          AbsorbAll(st, msgs[..|msgs| - 1], filter),
          Pairs(m.content.value));
      }
    }
  }

  lemma {:induction false} PairsDowngradingKeepResults(a: State, b: State, ps: seq<Pair>)
    requires a.results == b.results && a.order == b.order
    ensures EnterPairsDowngrading(a, ps).results == EnterPairs(b, ps).results
    ensures EnterPairsDowngrading(a, ps).order == EnterPairs(b, ps).order
  {
    if ps != [] {
      PairsDowngradingKeepResults(a, b, ps[..|ps| - 1]);
    }
  }

  /** With the corrected rule, the mail loop keeps `number_questions` exact and every question answered. */
  lemma {:induction false} PairsDowngradingExact(st: State, ps: seq<Pair>)
    requires NumericExact(st) && NoEmptyAnswers(st)
    requires forall i :: 0 <= i < |ps| ==> ps[i].fragments != []
    ensures NumericExact(EnterPairsDowngrading(st, ps))
    ensures NoEmptyAnswers(EnterPairsDowngrading(st, ps))
  {
    if ps != [] {
      PairsDowngradingExact(st, ps[..|ps| - 1]);
      var last := ps[|ps| - 1];
      var init := EnterPairsDowngrading(st, ps[..|ps| - 1]);
      EnterDowngradingKeepsExact(init, last.question, last.fragments);
      assert |Entries(last.fragments)| > 0;
      assert |Prior(init, last.question) + Entries(last.fragments)| > 0;
    }
  }

  lemma {:induction false} AbsorbAllDowngradingExact(st: State, msgs: seq<Message>, filter: string)
    requires NumericExact(st) && NoEmptyAnswers(st)
    ensures NumericExact(AbsorbAllDowngrading(st, msgs, filter))
    ensures NoEmptyAnswers(AbsorbAllDowngrading(st, msgs, filter))
  {
    if msgs != [] {
      AbsorbAllDowngradingExact(st, msgs[..|msgs| - 1], filter);
      var m := msgs[|msgs| - 1];
      if m.subject == filter && m.content.Some? {
        PairsAllOrNothing(m.content.value);
        PairsDowngradingExact(AbsorbAllDowngrading(st, msgs[..|msgs| - 1], filter), Pairs(m.content.value));
      }
    }
  }

  /**
    One turn of the loop of `make_entry`: while the flag is up, the fragment
    is checked and either becomes an int or drops the flag; once it is down,
    the fragment stays a string.
  */
  method CoerceEntry(val: seq<string>, i: nat, isNumber: bool) returns (entry: Answer, stillNumber: bool)
    requires i < |val|
    requires isNumber <==> i <= FirstNone(Checks(val))
    ensures entry == Entries(val)[i]
    ensures stillNumber <==> i + 1 <= FirstNone(Checks(val))
  {
    EntryAt(val, i);
    entry, stillNumber := Text(val[i]), isNumber;
    if isNumber {
      var info := CheckUint(val[i]);
      if info.Some? {
        entry := Num(info.value);
      } else {
        stillNumber := false;
      }
    }
  }

  /**
    The loop of `make_entry` over one answer list: every fragment appended to
    `prior` in turn, converted while all fragments so far passed `check_uint`.
  */
  method CoerceAll(prior: seq<Answer>, val: seq<string>) returns (entries: seq<Answer>, isNumber: bool)
    ensures entries == prior + Entries(val)
    ensures isNumber <==> AllNumbers(val)
  {
    ghost var k := FirstNone(Checks(val));
    ghost var es := Entries(val);
    entries := prior;
    assert entries + es[..0] == prior + es[..0];
    isNumber := true;
    var i := 0;
    while i < |val|
      invariant 0 <= i <= |val|
      invariant entries == prior + es[..i]
      invariant isNumber <==> i <= k
    {
      var entry;
      entry, isNumber := CoerceEntry(val, i, isNumber);
      ExtendPrefix(prior, es, i);
      entries := entries + [entry];
      i := i + 1;
    }
    assert es[..i] == es;
    AllNumbersChecks(val);
  }

  /** Creating the empty list first does not matter once the key's list is stored. */
  lemma StoreEntries(m: map<string, seq<Answer>>, started: map<string, seq<Answer>>, key: string, e: seq<Answer>)
    requires started == if key in m then m else m[key := []]
    ensures started[key := e] == m[key := e]
  {
  }

  lemma EnterParts(st: State, key: string, val: seq<string>, r: State)
    requires r.results == st.results[key := Prior(st, key) + Entries(val)]
    requires r.order == if key in st.results then st.order else st.order + [key]
    requires r.numeric == if AllNumbers(val) then st.numeric + {key} else st.numeric
    ensures r == Enter(st, key, val)
  {
  }

  lemma ExtendPrefix(prior: seq<Answer>, es: seq<Answer>, i: nat)
    requires i < |es|
    ensures prior + es[..i + 1] == (prior + es[..i]) + [es[i]]
  {
    assert es[..i + 1] == es[..i] + [es[i]];
  }

  /** `make_entry`, `results[key]` and `number_questions` as one object updated in place. */
  class Aggregator {
    var results: map<string, seq<Answer>>
    var order: seq<string>
    var numberQuestions: set<string>

    function Snapshot(): State
      reads this
    {
      State(results, order, numberQuestions)
    }

    constructor()
      ensures Snapshot() == Empty
    {
      results, order, numberQuestions := map[], [], {};
    }

    /** `make_entry(key, val)`. */
    method MakeEntry(key: string, val: seq<string>)
      modifies this
      ensures Snapshot() == Enter(old(Snapshot()), key, val)
    {
      ghost var before := Snapshot();
      if key !in results {
        results := results[key := []];
        order := order + [key];
      }
      var entries, isNumber := CoerceAll(results[key], val);
      ghost var started := results;
      results := results[key := entries];
      StoreEntries(before.results, started, key, entries);
      if isNumber {
        numberQuestions := numberQuestions + {key};
      }
      EnterParts(before, key, val, Snapshot());
    }

    /** One pass of the mail loop: the subject test, the extraction and the `make_entry` calls. */
    method ProcessMessage(m: Message, filter: string)
      modifies this
      ensures Snapshot() == Absorb(old(Snapshot()), m, filter)
    {
      if m.subject != filter || m.content.None? {
        return;
      }
      var blocks := m.content.value;
      var questions, answers := ExtractBlocks(blocks);
      if |questions| != |answers| {
        return;
      }
      ghost var before := Snapshot();
      ghost var ps := Pairs(blocks);
      var i := 0;
      while i < |questions|
        invariant 0 <= i <= |questions|
        invariant Snapshot() == EnterPairs(before, ps[..i])
      {
        assert ps[..i + 1][..i] == ps[..i];
        MakeEntry(questions[i], answers[i]);
        i := i + 1;
      }
      assert ps[..i] == ps;
    }
  }

  /** The mail loop over every message, from empty `results` and `number_questions`. */
  method Run(msgs: seq<Message>, filter: string) returns (agg: Aggregator)
    ensures fresh(agg)
    ensures agg.Snapshot() == AbsorbAll(Empty, msgs, filter)
  {
    agg := new Aggregator();
    var i := 0;
    while i < |msgs|
      invariant 0 <= i <= |msgs|
      invariant fresh(agg)
      invariant agg.Snapshot() == AbsorbAll(Empty, msgs[..i], filter)
    {
      assert msgs[..i + 1][..i] == msgs[..i];
      agg.ProcessMessage(msgs[i], filter);
      i := i + 1;
    }
    assert msgs[..i] == msgs;
  }
}
