/**
  The survey extractor: how the child nodes of each `<td>` in a mail's content
  wrapper become questions and answer fragments, and how questions are paired
  with the per-block fragment lists.
*/
module Extract {
  import opened Wrappers
  import opened PyStr

  /** What one child node (as a string) of a `<td>` contributes. */
  datatype Token = LineBreak | Question(text: string) | Fragment(text: string)

  /** A question paired with the answer fragments of one block. */
  datatype Pair = Pair(question: string, fragments: seq<string>)

  const QuestionOpen := "<strong>"
  const QuestionClose := "</strong>"
  const PointsOpen := "vergebene Punkte: "
  const PointsClose := " (0 min / 10 max)"

  /** `part` without one final newline: where a `$` anchor may match. */
  function BeforeFinalNewline(part: string): string {
    if |part| > 0 && part[|part| - 1] == '\n' then part[..|part| - 1] else part
  }

  /**
    Group 1 of `re.search('^' + open + '(.*)' + close + '$', part)`, no flags,
    for an `open` and a `close` without newlines: `^` matches only at the
    start, `$` at the end or just before a final newline, and `.` matches
    any character but a newline.
  */
  function MatchBetween(part: string, open: string, close: string): Option<string> {
    var body := BeforeFinalNewline(part);
    if |open| + |close| <= |body| && body[..|open|] == open && body[|body| - |close|..] == close
       && '\n' !in body[|open|..|body| - |close|]
    then Some(body[|open|..|body| - |close|])
    else None
  }

  /**
    The tests of the extraction loop, in their order: a `<br/>` is skipped,
    `<strong>X</strong>` is a question, `vergebene Punkte: N (0 min / 10 max)`
    gives the fragment N, and anything else gives its stripped text.
  */
  function Classify(part: string): Token {
    if part == "<br/>" then LineBreak
    else match MatchBetween(part, QuestionOpen, QuestionClose)
      case Some(q) => Question(q)
      case None =>
        match MatchBetween(part, PointsOpen, PointsClose)
        case Some(n) => Fragment(n)
        case None => Fragment(Strip(part))
  }

  function QuestionOf(t: Token): seq<string> {
    if t.Question? then [t.text] else []
  }

  function FragmentOf(t: Token): seq<string> {
    if t.Fragment? then [t.text] else []
  }

  /** The questions a block's parts mark, in order. */
  function BlockQuestions(block: seq<string>): seq<string> {
    if block == [] then []
    else BlockQuestions(block[..|block| - 1]) + QuestionOf(Classify(block[|block| - 1]))
  }

  /** The answer fragments of a block (`q_answers`), in order. */
  function BlockFragments(block: seq<string>): seq<string> {
    if block == [] then []
    else BlockFragments(block[..|block| - 1]) + FragmentOf(Classify(block[|block| - 1]))
  }

  /** The questions of a whole message, gathered across its blocks. */
  function Questions(blocks: seq<seq<string>>): seq<string> {
    if blocks == [] then []
    else Questions(blocks[..|blocks| - 1]) + BlockQuestions(blocks[|blocks| - 1])
  }

  /** The fragment lists of a message's blocks, leaving out blocks that yield none. */
  function AnswerLists(blocks: seq<seq<string>>): seq<seq<string>> {
    if blocks == [] then []
    else
      var f := BlockFragments(blocks[|blocks| - 1]);
      AnswerLists(blocks[..|blocks| - 1]) + (if f == [] then [] else [f])
  }

  /**
    The pairs a message yields: the i-th question with the i-th answer list
    when the two counts agree, and nothing at all when they do not.
  */
  function Pairs(blocks: seq<seq<string>>): seq<Pair> {
    var qs, lists := Questions(blocks), AnswerLists(blocks);
    if |qs| != |lists| then []
    else seq(|qs|, i requires 0 <= i < |qs| => Pair(qs[i], lists[i]))
  }

  /** Every fragment of the message's blocks, in order. */
  function AllFragments(blocks: seq<seq<string>>): seq<string> {
    if blocks == [] then []
    else AllFragments(blocks[..|blocks| - 1]) + BlockFragments(blocks[|blocks| - 1])
  }

  function PairQuestions(ps: seq<Pair>): (qs: seq<string>)
    ensures |qs| == |ps|
  {
    if ps == [] then [] else PairQuestions(ps[..|ps| - 1]) + [ps[|ps| - 1].question]
  }

  function PairFragments(ps: seq<Pair>): seq<string> {
    if ps == [] then [] else PairFragments(ps[..|ps| - 1]) + ps[|ps| - 1].fragments
  }

  /**
    The extraction loop over one message's `<td>` blocks: `questions` gathers
    the question marks of all blocks, `answers` the non-empty `q_answers`
    list of each block.
  */
  method ExtractBlocks(blocks: seq<seq<string>>) returns (questions: seq<string>, answers: seq<seq<string>>)
    ensures questions == Questions(blocks)
    ensures answers == AnswerLists(blocks)
  {
    questions, answers := [], [];
    var i := 0;
    while i < |blocks|
      invariant 0 <= i <= |blocks|
      invariant questions == Questions(blocks[..i])
      invariant answers == AnswerLists(blocks[..i])
    {
      var blockQuestions, qAnswers := ExtractBlock(blocks[i]);
      questions := questions + blockQuestions;
      if |qAnswers| > 0 {
        answers := answers + [qAnswers];
      }
      TakeStep(blocks, i);
      i := i + 1;
    }
    TakeAll(blocks);
  }

  /**
    The inner loop over the child nodes of one `<td>`: the questions it
    marks, and its `q_answers` list.
  */
  method ExtractBlock(block: seq<string>) returns (questions: seq<string>, qAnswers: seq<string>)
    ensures questions == BlockQuestions(block)
    ensures qAnswers == BlockFragments(block)
  {
    questions, qAnswers := [], [];
    var j := 0;
    while j < |block|
      invariant 0 <= j <= |block|
      invariant questions == BlockQuestions(block[..j])
      invariant qAnswers == BlockFragments(block[..j])
    {
      var part := block[j];
      assert block[..j + 1][..j] == block[..j];
      if part != "<br/>" {
        var question := MatchBetween(part, QuestionOpen, QuestionClose);
        if question.Some? {
          questions := questions + [question.value];
        } else {
          var points := MatchBetween(part, PointsOpen, PointsClose);
          if points.Some? {
            qAnswers := qAnswers + [points.value];
          } else {
            qAnswers := qAnswers + [Strip(part)];
          }
        }
      }
      j := j + 1;
    }
    assert block[..j] == block;
  }

  /** The pattern `open(.*)close$` matches exactly the texts that have open, a newline-free middle and close, with at most one newline after. */
  lemma MatchBetweenExact(part: string, open: string, close: string, x: string)
    requires close != [] && '\n' !in close
    ensures MatchBetween(part, open, close) == Some(x) <==>
      '\n' !in x && (part == open + x + close || part == open + x + close + "\n")
  {
    var body := BeforeFinalNewline(part);
    if MatchBetween(part, open, close) == Some(x) {
      assert body == body[..|open|] + body[|open|..|body| - |close|] + body[|body| - |close|..];
      if |part| > 0 && part[|part| - 1] == '\n' {
        assert part == body + "\n";
      }
    }
    if '\n' !in x && (part == open + x + close || part == open + x + close + "\n") {
      var full := open + x + close;
      assert full[|full| - 1] == close[|close| - 1];
      if part == full {
        assert body == full;
      } else {
        assert body == full;
      }
      assert body[..|open|] == open;
      assert body[|body| - |close|..] == close;
      assert body[|open|..|body| - |close|] == x;
    }
  }

  /** A part counts as a line break exactly when it is `<br/>`. */
  lemma ClassifyLineBreak(part: string)
    ensures Classify(part) == LineBreak <==> part == "<br/>"
  {
  }

  /**
    A part marks the question `q` exactly when it is `<strong>q</strong>`
    (possibly followed by one newline) and `q` holds no newline.
  */
  lemma ClassifyQuestion(part: string, q: string)
    ensures Classify(part) == Question(q) <==>
      '\n' !in q && (part == QuestionOpen + q + QuestionClose || part == QuestionOpen + q + QuestionClose + "\n")
  {
    MatchBetweenExact(part, QuestionOpen, QuestionClose, q);
    if part == "<br/>" {
      assert MatchBetween(part, QuestionOpen, QuestionClose).None?;
    }
  }

  /** A points line gives the text between the two fixed parts as its fragment. */
  lemma ClassifyPoints(part: string, n: string)
    requires '\n' !in n
    requires part == PointsOpen + n + PointsClose || part == PointsOpen + n + PointsClose + "\n"
    ensures Classify(part) == Fragment(n)
  {
    MatchBetweenExact(part, PointsOpen, PointsClose, n);
    assert part[0] == 'v';
    var body := BeforeFinalNewline(part);
    assert body[0] == 'v';
    assert MatchBetween(part, QuestionOpen, QuestionClose).None? by {
      if |QuestionOpen| + |QuestionClose| <= |body| {
        assert body[..|QuestionOpen|][0] == 'v';
      }
    }
  }

  /**
    `part` is `open`, a middle without newlines and `close`, with at most
    one newline after: the texts the anchored pattern `^open(.*)close$`
    matches.
  */
  ghost predicate Framed(part: string, open: string, close: string) {
    exists x :: '\n' !in x && (part == open + x + close || part == open + x + close + "\n")
  }

  /** The pattern matches only framed texts. */
  lemma MatchFramed(part: string, open: string, close: string)
    requires close != [] && '\n' !in close
    ensures MatchBetween(part, open, close).Some? ==> Framed(part, open, close)
  {
    if MatchBetween(part, open, close).Some? {
      MatchBetweenExact(part, open, close, MatchBetween(part, open, close).value);
    }
  }

  /**
    Any other part, neither `<br/>` nor a question line nor a points line,
    gives its stripped text as a fragment.
  */
  lemma ClassifyPlain(part: string)
    requires part != "<br/>"
    requires !Framed(part, QuestionOpen, QuestionClose)
    requires !Framed(part, PointsOpen, PointsClose)
    ensures Classify(part) == Fragment(Strip(part))
  {
    MatchFramed(part, QuestionOpen, QuestionClose);
    MatchFramed(part, PointsOpen, PointsClose);
  }

  lemma {:induction false} PairQuestionsOf(ps: seq<Pair>)
    ensures forall i :: 0 <= i < |ps| ==> PairQuestions(ps)[i] == ps[i].question
  {
    if ps != [] {
      PairQuestionsOf(ps[..|ps| - 1]);
    }
  }

  lemma {:induction false} PairFragmentsOf(qs: seq<string>, lists: seq<seq<string>>)
    requires |qs| == |lists|
    ensures PairFragments(seq(|qs|, i requires 0 <= i < |qs| => Pair(qs[i], lists[i]))) == Concat(lists)
  {
    var ps := seq(|qs|, i requires 0 <= i < |qs| => Pair(qs[i], lists[i]));
    if qs != [] {
      var n := |qs| - 1;
      assert ps[..n] == seq(n, i requires 0 <= i < n => Pair(qs[..n][i], lists[..n][i]));
      PairFragmentsOf(qs[..n], lists[..n]);
    }
  }

  /** Dropping the blocks without fragments loses no fragment, and leaves no empty list. */
  lemma {:induction false} AnswerListsKeepFragments(blocks: seq<seq<string>>)
    ensures Concat(AnswerLists(blocks)) == AllFragments(blocks)
    ensures NoEmptyList(AnswerLists(blocks))
  {
    if blocks != [] {
      var init := blocks[..|blocks| - 1];
      AnswerListsKeepFragments(init);
      var f := BlockFragments(blocks[|blocks| - 1]);
      if f != [] {
        var a := AnswerLists(init) + [f];
        assert a[..|a| - 1] == AnswerLists(init);
        assert Concat(a) == Concat(AnswerLists(init)) + f;
      } else {
        assert AnswerLists(blocks) == AnswerLists(init);
        assert AllFragments(blocks) == AllFragments(init) + [];
      }
    }
  }

  predicate NoEmptyList(lists: seq<seq<string>>) {
    forall i :: 0 <= i < |lists| ==> lists[i] != []
  }

  /**
    A message's extraction is all or nothing: either no pair at all (the
    counts differ, or there are no questions), or one pair per question in
    order, each with a non-empty list, the lists together holding every
    fragment of every block in order.
  */
  lemma PairsAllOrNothing(blocks: seq<seq<string>>)
    ensures var ps := Pairs(blocks);
      || (ps == [] && (|Questions(blocks)| != |AnswerLists(blocks)| || Questions(blocks) == []))
      || (&& PairQuestions(ps) == Questions(blocks)
          && PairFragments(ps) == AllFragments(blocks)
          && forall i :: 0 <= i < |ps| ==> ps[i].fragments != [])
  {
    var qs, lists := Questions(blocks), AnswerLists(blocks);
    var ps := Pairs(blocks);
    if |qs| == |lists| {
      AnswerListsKeepFragments(blocks);
      PairQuestionsOf(ps);
      PairFragmentsOf(qs, lists);
    }
  }

  /** The child node that marks the question `q`. */
  function QuestionMark(q: string): string {
    QuestionOpen + q + QuestionClose
  }

  /** The child node that reports `n` points. */
  function PointsLine(n: string): string {
    PointsOpen + n + PointsClose
  }

  /** The layout with a question and its points in the same `<td>`: one pair. */
  lemma SameBlockLayout(q: string, n: string)
    requires '\n' !in q && '\n' !in n
    ensures Pairs([[QuestionMark(q), PointsLine(n)]]) == [Pair(q, [n])]
  {
    var b := [QuestionMark(q), PointsLine(n)];
    QuestionPointsBlock(q, n);
    MessageOf([], b);
    assert [] + [b] == [b];
    PairsOfOne([b], q, [n]);
  }

  lemma QuestionPointsBlock(q: string, n: string)
    requires '\n' !in q && '\n' !in n
    ensures BlockQuestions([QuestionMark(q), PointsLine(n)]) == [q]
    ensures BlockFragments([QuestionMark(q), PointsLine(n)]) == [n]
  {
    var b := [QuestionMark(q), PointsLine(n)];
    ClassifyQuestion(b[0], q);
    ClassifyPoints(b[1], n);
    BlockOf([b[0]], b[1]);
    BlockOf([], b[0]);
    assert [b[0]] + [b[1]] == b && [] + [b[0]] == [b[0]];
  }

  /** The layout with a question alone in its `<td>` and its points in the next one: one pair. */
  lemma SeparateBlockLayout(q: string, n: string)
    requires '\n' !in q && '\n' !in n
    ensures Pairs([[QuestionMark(q)], [PointsLine(n)]]) == [Pair(q, [n])]
  {
    var b1, b2 := [QuestionMark(q)], [PointsLine(n)];
    QuestionBlock(q);
    PointsBlock(n);
    TwoBlocks(b1, b2);
    PairsOfOne([b1, b2], q, [n]);
  }

  /** A message of two blocks: the questions and answer lists of the first, then of the second. */
  lemma TwoBlocks(b1: seq<string>, b2: seq<string>)
    ensures Questions([b1, b2]) == BlockQuestions(b1) + BlockQuestions(b2)
    ensures AnswerLists([b1, b2]) ==
      (if BlockFragments(b1) == [] then [] else [BlockFragments(b1)]) +
      (if BlockFragments(b2) == [] then [] else [BlockFragments(b2)])
  {
    OneBlock(b1);
    MessageOf([b1], b2);
    assert [b1] + [b2] == [b1, b2];
  }

  lemma OneBlock(b: seq<string>)
    ensures Questions([b]) == BlockQuestions(b)
    ensures AnswerLists([b]) == if BlockFragments(b) == [] then [] else [BlockFragments(b)]
  {
    assert [b][..0] == [];
  }

  lemma QuestionBlock(q: string)
    requires '\n' !in q
    ensures BlockQuestions([QuestionMark(q)]) == [q] && BlockFragments([QuestionMark(q)]) == []
  {
    ClassifyQuestion(QuestionMark(q), q);
    BlockOf([], QuestionMark(q));
    assert [] + [QuestionMark(q)] == [QuestionMark(q)];
  }

  lemma PointsBlock(n: string)
    requires '\n' !in n
    ensures BlockQuestions([PointsLine(n)]) == [] && BlockFragments([PointsLine(n)]) == [n]
  {
    ClassifyPoints(PointsLine(n), n);
    BlockOf([], PointsLine(n));
    assert [] + [PointsLine(n)] == [PointsLine(n)];
  }

  lemma PairsOfOne(blocks: seq<seq<string>>, q: string, f: seq<string>)
    requires Questions(blocks) == [q] && AnswerLists(blocks) == [f]
    ensures Pairs(blocks) == [Pair(q, f)]
  {
  }

  /**
    One more question without an answer block after a message whose counts
    agree makes the counts differ, and the whole message yields nothing.
  */
  lemma UnansweredQuestionYieldsNothing(blocks: seq<seq<string>>, q: string)
    requires '\n' !in q
    requires |Questions(blocks)| == |AnswerLists(blocks)|
    ensures Pairs(blocks + [[QuestionMark(q)]]) == []
  {
    var b := [QuestionMark(q)];
    ClassifyQuestion(b[0], q);
    BlockOf([], b[0]);
    assert [] + [b[0]] == b;
    assert BlockQuestions(b) == [q] && BlockFragments(b) == [];
    MessageOf(blocks, b);
  }

  /** The parts of a block split anywhere: the questions and the fragments of the two halves, one after the other. */
  lemma {:induction false} BlocksAppend(a: seq<string>, b: seq<string>)
    ensures BlockQuestions(a + b) == BlockQuestions(a) + BlockQuestions(b)
    ensures BlockFragments(a + b) == BlockFragments(a) + BlockFragments(b)
  {
    if b == [] {
      assert a + b == a;
    } else {
      var init, last := b[..|b| - 1], b[|b| - 1];
      var t := Classify(last);
      AppendLast(a, b);
      BlocksAppend(a, init);
      BlockOf(a + init, last);
      BlockOf(init, last);
      calc {
        BlockQuestions(a + b);
        BlockQuestions(a + init) + QuestionOf(t);
        (BlockQuestions(a) + BlockQuestions(init)) + QuestionOf(t);
        { AppendAssoc(BlockQuestions(a), BlockQuestions(init), QuestionOf(t)); }
        BlockQuestions(a) + BlockQuestions(b);
      }
      calc {
        BlockFragments(a + b);
        BlockFragments(a + init) + FragmentOf(t);
        (BlockFragments(a) + BlockFragments(init)) + FragmentOf(t);
        { AppendAssoc(BlockFragments(a), BlockFragments(init), FragmentOf(t)); }
        BlockFragments(a) + BlockFragments(b);
      }
    }
  }

  /** The blocks of a mail split anywhere: the questions and the answer lists of the two halves, one after the other. */
  lemma {:induction false} MessagesAppend(a: seq<seq<string>>, b: seq<seq<string>>)
    ensures Questions(a + b) == Questions(a) + Questions(b)
    ensures AnswerLists(a + b) == AnswerLists(a) + AnswerLists(b)
  {
    if b == [] {
      assert a + b == a;
    } else {
      var init, last := b[..|b| - 1], b[|b| - 1];
      var f := BlockFragments(last);
      var more := if f == [] then [] else [f];
      AppendLast(a, b);
      MessagesAppend(a, init);
      MessageOf(a + init, last);
      MessageOf(init, last);
      calc {
        Questions(a + b);
        Questions(a + init) + BlockQuestions(last);
        (Questions(a) + Questions(init)) + BlockQuestions(last);
        { AppendAssoc(Questions(a), Questions(init), BlockQuestions(last)); }
        Questions(a) + Questions(b);
      }
      calc {
        AnswerLists(a + b);
        AnswerLists(a + init) + more;
        (AnswerLists(a) + AnswerLists(init)) + more;
        { AppendAssoc(AnswerLists(a), AnswerLists(init), more); }
        AnswerLists(a) + AnswerLists(b);
      }
    }
  }

  lemma BlockOf(init: seq<string>, part: string)
    ensures BlockQuestions(init + [part]) == BlockQuestions(init) + QuestionOf(Classify(part))
    ensures BlockFragments(init + [part]) == BlockFragments(init) + FragmentOf(Classify(part))
  {
    assert (init + [part])[..|init|] == init;
  }

  lemma MessageOf(init: seq<seq<string>>, block: seq<string>)
    ensures Questions(init + [block]) == Questions(init) + BlockQuestions(block)
    ensures AnswerLists(init + [block]) ==
      AnswerLists(init) + (if BlockFragments(block) == [] then [] else [BlockFragments(block)])
  {
    assert (init + [block])[..|init|] == init;
  }
}
