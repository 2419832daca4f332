/**
  The two helpers the plots use: the palette for a number of answers, and
  the word wrap with hyphenation that every caption goes through before it
  is drawn. The hyphenation dictionary is a parameter: `positions(word)`
  gives the cut points of a word.
*/
module Plot {
  import opened PyStr
  import opened Aggregate

  const ColorsSimple: seq<string> := ["red", "royalblue"]
  const ColorsFive: seq<string> := ["red", "darkorange", "gold", "limegreen", "royalblue"]
  const ColorsTen: seq<string> := [
    "red", "darkorange", "gold", "yellowgreen", "limegreen",
    "deepskyblue", "royalblue", "navy", "purple", "darkmagenta"
  ]

  /** Pairwise different colours. */
  predicate DistinctColors(p: seq<string>) {
    forall i, j :: 0 <= i < j < |p| ==> p[i] != p[j]
  }

  /**
    `get_colors(nr_answers)`: up to ten answers get a palette with a colour
    for each of them, and no colour is used twice in a palette.
  */
  function GetColors(n: nat): (r: seq<string>)
    ensures |r| >= (if n <= 10 then n else 10)
    ensures n > 10 ==> r == ColorsTen
    ensures r == ColorsSimple || r == ColorsFive || r == ColorsTen
    ensures DistinctColors(r)
  {
    if n <= 2 then ColorsSimple
    else if n <= 5 then ColorsFive
    else ColorsTen
  }

  /** The palette is the smallest of the three that has a colour for each answer. */
  lemma GetColorsSmallest(n: nat, p: seq<string>)
    requires p == ColorsSimple || p == ColorsFive || p == ColorsTen
    requires |p| >= n
    ensures |GetColors(n)| <= |p|
  {
  }

  // ----- wrap_word: the lines as values -----

  /** One line of the wrap, and whether `extend` put a hyphen after it because a word was cut there. */
  datatype Line = Line(text: string, hyphen: bool)

  /** `cur_line` and the finished `lines` of `wrap_word`. */
  datatype Wrap = Wrap(cur: string, done: seq<Line>)

  /** The line as `lines` stores it: the text, and `-` after it where a word was cut. */
  function Render(l: Line): string {
    if l.hyphen then l.text + "-" else l.text
  }

  function Renders(ls: seq<Line>): seq<string> {
    seq(|ls|, i requires 0 <= i < |ls| => Render(ls[i]))
  }

  /** The wrap after `extend_nw(part)`, which adds a part that starts a word. */
  function ExtendedNw(w: Wrap, part: string, lineLen: int): Wrap {
    if |w.cur| + |part| > lineLen then Wrap(part, w.done + [Line(w.cur, false)])
    else Wrap(w.cur + part, w.done)
  }

  /** The wrap after `extend(part)`, which adds a part inside a word and leaves room for a hyphen. */
  function Extended(w: Wrap, part: string, lineLen: int): Wrap {
    if |w.cur| + |part| + 1 > lineLen then Wrap(part, w.done + [Line(w.cur, true)])
    else Wrap(w.cur + part, w.done)
  }

  /** `extend` applied to each part in turn. */
  function ExtendedAll(w: Wrap, parts: seq<string>, lineLen: int): Wrap {
    if parts == [] then w
    else Extended(ExtendedAll(w, parts[..|parts| - 1], lineLen), parts[|parts| - 1], lineLen)
  }

  /** Where the word loop cuts `word`: its start, the hyphenation positions, its end. */
  function Bounds(word: string, ps: seq<nat>): seq<nat> {
    [0] + ps + [|word|]
  }

  /** The slices of `word` between consecutive bounds: the parts the word loop adds. */
  function Pieces(word: string, ps: seq<nat>): (parts: seq<string>)
    ensures |parts| == |ps| + 1
  {
    var b := Bounds(word, ps);
    seq(|ps| + 1, i requires 0 <= i <= |ps| => Slice(word, b[i], b[i + 1]))
  }

  /** Cut points as a hyphenation dictionary gives them: increasing, and strictly inside the word. */
  predicate ValidCuts(word: string, ps: seq<nat>) {
    && (forall i :: 0 <= i < |ps| ==> 0 < ps[i] < |word|)
    && (forall i, j :: 0 <= i < j < |ps| ==> ps[i] < ps[j])
  }

  /** The cut points the dictionary gives for each of `words` are valid. */
  predicate CutsFit(words: seq<string>, positions: string -> seq<nat>) {
    forall i :: 0 <= i < |words| ==> ValidCuts(words[i], positions(words[i]))
  }

  /** The parts of one word: the first by `extend_nw`, the others by `extend`, then a blank. */
  function WithParts(w: Wrap, parts: seq<string>, lineLen: int): Wrap
    requires parts != []
  {
    var after := ExtendedAll(ExtendedNw(w, parts[0], lineLen), parts[1..], lineLen);
    Wrap(after.cur + " ", after.done)
  }

  /** One pass of the word loop, cutting `word` at `ps`. */
  function WithWord(w: Wrap, word: string, ps: seq<nat>, lineLen: int): Wrap {
    WithParts(w, Pieces(word, ps), lineLen)
  }

  /** The word loop over `words`. */
  function WithWords(w: Wrap, words: seq<string>, positions: string -> seq<nat>, lineLen: int): Wrap {
    if words == [] then w
    else
      var last := words[|words| - 1];
      WithWord(WithWords(w, words[..|words| - 1], positions, lineLen), last, positions(last), lineLen)
  }

  /** The lines of the wrap of `s` before `rstrip`: the finished ones, then the current one. */
  function WrapLines(s: string, lineLen: int, positions: string -> seq<nat>): seq<Line> {
    var w := WithWords(Wrap("", []), Split(s), positions, lineLen);
    w.done + [Line(w.cur, false)]
  }

  /** `[l.rstrip() for l in lines]`: no line ends in white space. */
  function RStripAll(lines: seq<string>): (r: seq<string>)
    ensures |r| == |lines|
    ensures forall i :: 0 <= i < |r| ==> r[i] == [] || !IsSpace(r[i][|r[i]| - 1])
  {
    seq(|lines|, i requires 0 <= i < |lines| => RStrip(lines[i]))
  }

  /** The lines `wrap_word` joins: each stored line with its trailing white space stripped. */
  function OutputLines(s: string, lineLen: int, positions: string -> seq<nat>): seq<string> {
    RStripAll(Renders(WrapLines(s, lineLen, positions)))
  }

  /** `wrap_word(full_str, line_len)` for a string. */
  function WrapText(s: string, lineLen: int, positions: string -> seq<nat>): string {
    Join(OutputLines(s, lineLen, positions), "\n")
  }

  /** `wrap_word` on a caption: a number comes back as it is, text is wrapped. */
  function WrapLabel(caption: Answer, lineLen: int, positions: string -> seq<nat>): (r: Answer)
    ensures caption.Num? ==> r == caption
    ensures caption.Text? ==> r == Text(WrapText(caption.s, lineLen, positions))
  {
    match caption
    case Num(_) => caption
    case Text(s) => Text(WrapText(s, lineLen, positions))
  }

  // ----- What the wrap keeps -----

  /** The text of the lines one after another. */
  function Unwrapped(ls: seq<Line>): string {
    if ls == [] then [] else Unwrapped(ls[..|ls| - 1]) + ls[|ls| - 1].text
  }

  /** All the wrap holds so far: the text of the finished lines, then the current line. */
  function Held(w: Wrap): string {
    Unwrapped(w.done) + w.cur
  }

  lemma UnwrappedPush(ls: seq<Line>, l: Line)
    ensures Unwrapped(ls + [l]) == Unwrapped(ls) + l.text
  {
    assert (ls + [l])[..|ls|] == ls;
  }

  /** `extend_nw` adds exactly its part, whether or not it starts a new line. */
  lemma HeldExtendedNw(w: Wrap, part: string, lineLen: int)
    ensures Held(ExtendedNw(w, part, lineLen)) == Held(w) + part
  {
    UnwrappedPush(w.done, Line(w.cur, false));
  }

  /** `extend` adds exactly its part; the hyphen is not part of the line's text. */
  lemma HeldExtended(w: Wrap, part: string, lineLen: int)
    ensures Held(Extended(w, part, lineLen)) == Held(w) + part
  {
    UnwrappedPush(w.done, Line(w.cur, true));
  }

  lemma {:induction false} HeldExtendedAll(w: Wrap, parts: seq<string>, lineLen: int)
    ensures Held(ExtendedAll(w, parts, lineLen)) == Held(w) + Concat(parts)
  {
    if parts != [] {
      var init := parts[..|parts| - 1];
      HeldExtendedAll(w, init, lineLen);
      HeldExtended(ExtendedAll(w, init, lineLen), parts[|parts| - 1], lineLen);
    }
  }

  /** The bounds of a word cut at valid points increase strictly and stay inside the word. */
  lemma BoundsIncrease(word: string, ps: seq<nat>, b: seq<nat>)
    requires ValidCuts(word, ps) && word != [] && b == Bounds(word, ps)
    ensures forall i, j :: 0 <= i < j < |b| ==> b[i] < b[j]
    ensures forall i :: 0 <= i < |b| ==> b[i] <= |word|
  {
    forall i, j | 0 <= i < j < |b| ensures b[i] < b[j] {
      if 0 < i {
        assert b[i] == ps[i - 1];
      }
      if j < |b| - 1 {
        assert b[j] == ps[j - 1];
      }
    }
  }

  /** Part `i` is the slice between cut `i - 1` (or the start) and cut `i` (or the end). */
  lemma PieceBetween(word: string, ps: seq<nat>, i: nat)
    requires i <= |ps|
    ensures Pieces(word, ps)[i] == Slice(word, if i == 0 then 0 else ps[i - 1], if i == |ps| then |word| else ps[i])
  {
    var b := Bounds(word, ps);
    assert b[i] == if i == 0 then 0 else ps[i - 1];
    assert b[i + 1] == if i == |ps| then |word| else ps[i];
  }

  lemma {:induction false} PiecesPrefix(word: string, ps: seq<nat>, b: seq<nat>, k: nat)
    requires ValidCuts(word, ps) && word != [] && b == Bounds(word, ps)
    requires k <= |ps| + 1
    ensures Concat(Pieces(word, ps)[..k]) == word[..b[k]]
  {
    var parts := Pieces(word, ps);
    if k == 0 {
      assert parts[..0] == [];
    } else {
      PiecesPrefix(word, ps, b, k - 1);
      var lo, hi := PieceIsSlice(word, ps, k - 1);
      TakeStep(parts, k - 1);
      PrefixJoin(word, lo, hi);
    }
  }

  /** The parts of a word put together give the word back. */
  lemma PiecesJoin(word: string, ps: seq<nat>)
    requires ValidCuts(word, ps) && word != []
    ensures Concat(Pieces(word, ps)) == word
  {
    PiecesPrefix(word, ps, Bounds(word, ps), |ps| + 1);
    assert Pieces(word, ps)[..|ps| + 1] == Pieces(word, ps);
    assert word[..|word|] == word;
  }

  /** Part `i` of a word cut at valid points is a non-empty slice of it. */
  lemma PieceIsSlice(word: string, ps: seq<nat>, i: nat) returns (lo: nat, hi: nat)
    requires ValidCuts(word, ps) && word != [] && i <= |ps|
    ensures lo < hi <= |word| && Pieces(word, ps)[i] == word[lo..hi]
    ensures lo == Bounds(word, ps)[i] && hi == Bounds(word, ps)[i + 1]
  {
    var b := Bounds(word, ps);
    BoundsIncrease(word, ps, b);
    lo, hi := b[i], b[i + 1];
  }

  lemma SliceIsWord(word: string, lo: nat, hi: nat)
    requires IsWord(word) && lo < hi <= |word|
    ensures IsWord(word[lo..hi])
  {
    forall j | 0 <= j < hi - lo ensures !IsSpace(word[lo..hi][j]) {
      assert word[lo..hi][j] == word[lo + j];
    }
  }

  /** Each part of a word is a non-empty run of non-space characters. */
  lemma PiecesAreWords(word: string, ps: seq<nat>)
    requires ValidCuts(word, ps) && IsWord(word)
    ensures forall i :: 0 <= i < |Pieces(word, ps)| ==> IsWord(Pieces(word, ps)[i])
  {
    forall i | 0 <= i < |Pieces(word, ps)| ensures IsWord(Pieces(word, ps)[i]) {
      var lo, hi := PieceIsSlice(word, ps, i);
      SliceIsWord(word, lo, hi);
    }
  }

  /** The parts of a word are added, and a blank after them. */
  lemma HeldWithParts(w: Wrap, parts: seq<string>, lineLen: int)
    requires parts != []
    ensures Held(WithParts(w, parts, lineLen)) == Held(w) + Concat(parts) + " "
  {
    var first := ExtendedNw(w, parts[0], lineLen);
    var after := ExtendedAll(first, parts[1..], lineLen);
    HeldExtendedNw(w, parts[0], lineLen);
    HeldExtendedAll(first, parts[1..], lineLen);
    ConcatFront(parts);
    AppendAssoc(Held(w), parts[0], Concat(parts[1..]));
    HeldBlank(after);
  }

  lemma HeldBlank(v: Wrap)
    ensures Held(Wrap(v.cur + " ", v.done)) == Held(v) + " "
  {
  }

  /** One pass of the word loop adds the word and a blank. */
  lemma HeldWithWord(w: Wrap, word: string, ps: seq<nat>, lineLen: int)
    requires ValidCuts(word, ps) && word != []
    ensures Held(WithWord(w, word, ps, lineLen)) == Held(w) + word + " "
  {
    HeldWithParts(w, Pieces(word, ps), lineLen);
    PiecesJoin(word, ps);
  }

  lemma {:induction false} HeldWithWords(words: seq<string>, positions: string -> seq<nat>, lineLen: int)
    requires forall i :: 0 <= i < |words| ==> IsWord(words[i])
    requires CutsFit(words, positions)
    ensures Held(WithWords(Wrap("", []), words, positions, lineLen)) == Spaced(words)
  {
    if words != [] {
      var init, last := words[..|words| - 1], words[|words| - 1];
      HeldWithWords(init, positions, lineLen);
      var v := WithWords(Wrap("", []), init, positions, lineLen);
      HeldWithWord(v, last, positions(last), lineLen);
      SpacedAppend(init, last);
      InitLast(words);
    }
  }

  /**
    Without the hyphens added at cuts and without the line breaks, the
    lines are the words of the input, each followed by one blank: the
    same words, in the same order.
  */
  lemma WrapKeepsWords(s: string, lineLen: int, positions: string -> seq<nat>)
    requires CutsFit(Split(s), positions)
    ensures Unwrapped(WrapLines(s, lineLen, positions)) == Spaced(Split(s))
    ensures Split(Unwrapped(WrapLines(s, lineLen, positions))) == Split(s)
  {
    var w := WithWords(Wrap("", []), Split(s), positions, lineLen);
    HeldWithWords(Split(s), positions, lineLen);
    UnwrappedPush(w.done, Line(w.cur, false));
    SplitSpaced(Split(s));
  }

  // ----- Where hyphens go -----

  predicate EndsWord(t: string) {
    t != [] && !IsSpace(t[|t| - 1])
  }

  predicate StartsWord(t: string) {
    t != [] && !IsSpace(t[0])
  }

  /** The text after finished line `i`: the next finished line, or the current one. */
  function Following(w: Wrap, i: nat): string
    requires i < |w.done|
  {
    if i + 1 < |w.done| then w.done[i + 1].text else w.cur
  }

  /** A line with an added hyphen ends inside a word, and the text after it goes on with that word. */
  predicate CutsInWords(w: Wrap) {
    forall i :: 0 <= i < |w.done| && w.done[i].hyphen ==>
      EndsWord(w.done[i].text) && StartsWord(Following(w, i))
  }

  lemma CutsExtendedNw(w: Wrap, part: string, lineLen: int)
    requires CutsInWords(w) && IsWord(part)
    ensures CutsInWords(ExtendedNw(w, part, lineLen))
    ensures EndsWord(ExtendedNw(w, part, lineLen).cur)
  {
    var v := ExtendedNw(w, part, lineLen);
    forall i | 0 <= i < |v.done| && v.done[i].hyphen
      ensures EndsWord(v.done[i].text) && StartsWord(Following(v, i))
    {
      assert i < |w.done| && v.done[i] == w.done[i];
      if i + 1 == |w.done| && v.cur == w.cur + part {
        assert (w.cur + part)[0] == w.cur[0];
      }
    }
    assert v.cur[|v.cur| - 1] == part[|part| - 1];
  }

  lemma CutsExtended(w: Wrap, part: string, lineLen: int)
    requires CutsInWords(w) && IsWord(part) && EndsWord(w.cur)
    ensures CutsInWords(Extended(w, part, lineLen))
    ensures EndsWord(Extended(w, part, lineLen).cur)
  {
    var v := Extended(w, part, lineLen);
    forall i | 0 <= i < |v.done| && v.done[i].hyphen
      ensures EndsWord(v.done[i].text) && StartsWord(Following(v, i))
    {
      if i < |w.done| {
        assert v.done[i] == w.done[i];
        if i + 1 == |w.done| && v.cur == w.cur + part {
          assert (w.cur + part)[0] == w.cur[0];
        }
      }
    }
    assert v.cur[|v.cur| - 1] == part[|part| - 1];
  }

  lemma {:induction false} CutsExtendedAll(w: Wrap, parts: seq<string>, lineLen: int)
    requires CutsInWords(w) && EndsWord(w.cur)
    requires forall i :: 0 <= i < |parts| ==> IsWord(parts[i])
    ensures CutsInWords(ExtendedAll(w, parts, lineLen))
    ensures EndsWord(ExtendedAll(w, parts, lineLen).cur)
  {
    if parts != [] {
      var init := parts[..|parts| - 1];
      assert forall i :: 0 <= i < |init| ==> init[i] == parts[i];
      CutsExtendedAll(w, init, lineLen);
      CutsExtended(ExtendedAll(w, init, lineLen), parts[|parts| - 1], lineLen);
    }
  }

  lemma CutsWithParts(w: Wrap, parts: seq<string>, lineLen: int)
    requires CutsInWords(w) && parts != []
    requires forall i :: 0 <= i < |parts| ==> IsWord(parts[i])
    ensures CutsInWords(WithParts(w, parts, lineLen))
  {
    CutsExtendedNw(w, parts[0], lineLen);
    var first := ExtendedNw(w, parts[0], lineLen);
    assert forall i :: 0 <= i < |parts[1..]| ==> parts[1..][i] == parts[i + 1];
    CutsExtendedAll(first, parts[1..], lineLen);
    var after := ExtendedAll(first, parts[1..], lineLen);
    assert (after.cur + " ")[0] == after.cur[0];
  }

  lemma CutsWithWord(w: Wrap, word: string, ps: seq<nat>, lineLen: int)
    requires CutsInWords(w) && ValidCuts(word, ps) && IsWord(word)
    ensures CutsInWords(WithWord(w, word, ps, lineLen))
  {
    PiecesAreWords(word, ps);
    CutsWithParts(w, Pieces(word, ps), lineLen);
  }

  lemma {:induction false} CutsWithWords(words: seq<string>, positions: string -> seq<nat>, lineLen: int)
    requires forall i :: 0 <= i < |words| ==> IsWord(words[i])
    requires CutsFit(words, positions)
    ensures CutsInWords(WithWords(Wrap("", []), words, positions, lineLen))
  {
    if words != [] {
      var init, last := words[..|words| - 1], words[|words| - 1];
      assert forall i :: 0 <= i < |init| ==> init[i] == words[i];
      CutsWithWords(init, positions, lineLen);
      CutsWithWord(WithWords(Wrap("", []), init, positions, lineLen), last, positions(last), lineLen);
    }
  }

  /**
    Every output line is its share of the words with trailing blanks
    stripped, followed by `-` exactly where `extend` cut a word; such a
    line ends inside the word and the next line goes on with it.
  */
  lemma WrapOutput(s: string, lineLen: int, positions: string -> seq<nat>)
    requires CutsFit(Split(s), positions)
    ensures var ls, out := WrapLines(s, lineLen, positions), OutputLines(s, lineLen, positions);
      forall i :: 0 <= i < |ls| ==>
        && out[i] == RStrip(ls[i].text) + (if ls[i].hyphen then "-" else "")
        && (ls[i].hyphen ==> i + 1 < |ls| && EndsWord(ls[i].text) && StartsWord(ls[i + 1].text))
  {
    var w := WithWords(Wrap("", []), Split(s), positions, lineLen);
    CutsWithWords(Split(s), positions, lineLen);
    OutputOfWrap(w);
    assert WrapLines(s, lineLen, positions) == w.done + [Line(w.cur, false)];
  }

  /** The output lines of a wrap whose hyphens all cut inside words. */
  lemma OutputOfWrap(w: Wrap)
    requires CutsInWords(w)
    ensures var ls := w.done + [Line(w.cur, false)];
      var out := RStripAll(Renders(ls));
      forall i :: 0 <= i < |ls| ==>
        && out[i] == RStrip(ls[i].text) + (if ls[i].hyphen then "-" else "")
        && (ls[i].hyphen ==> i + 1 < |ls| && EndsWord(ls[i].text) && StartsWord(ls[i + 1].text))
  {
    var ls := w.done + [Line(w.cur, false)];
    var out := RStripAll(Renders(ls));
    forall i | 0 <= i < |ls|
      ensures out[i] == RStrip(ls[i].text) + (if ls[i].hyphen then "-" else "")
      ensures ls[i].hyphen ==> i + 1 < |ls| && EndsWord(ls[i].text) && StartsWord(ls[i + 1].text)
    {
      assert out[i] == RStrip(Render(ls[i]));
      if ls[i].hyphen {
        assert i < |w.done| && ls[i] == w.done[i];
        assert Following(w, i) == ls[i + 1].text;
        RStripWordEnd(ls[i].text);
      }
    }
  }

  /** Stripping leaves a line that ends inside a word, and that line with a hyphen after it, alone. */
  lemma RStripWordEnd(t: string)
    requires EndsWord(t)
    ensures RStrip(t) == t && RStrip(t + "-") == t + "-"
  {
    assert !IsSpace('-');
    assert (t + "-")[|t|] == '-';
  }

  /**
    A word the dictionary gives no cut points for is never cut: the pass
    adds no hyphen, and the current line ends with the whole word and its
    blank.
  */
  lemma UncutWordStaysWhole(w: Wrap, word: string, lineLen: int)
    ensures var v := WithWord(w, word, [], lineLen);
      && |v.cur| > |word|
      && v.cur[|v.cur| - |word| - 1..] == word + " "
      && v.done[..|w.done|] == w.done
      && forall i :: |w.done| <= i < |v.done| ==> !v.done[i].hyphen
  {
    UncutPieces(word);
    var v := ExtendedNw(w, word, lineLen);
    assert [word][1..] == [];
    assert WithWord(w, word, [], lineLen) == Wrap(v.cur + " ", v.done);
  }

  lemma UncutPieces(word: string)
    ensures Pieces(word, []) == [word]
  {
    assert Pieces(word, [])[0] == word[..|word|] == word;
  }

  // ----- wrap_word as the program runs it -----

  lemma RendersPush(ls: seq<Line>, l: Line)
    ensures Renders(ls + [l]) == Renders(ls) + [Render(l)]
  {
  }

  lemma ExtendedAllPush(w: Wrap, parts: seq<string>, p: string, lineLen: int)
    ensures ExtendedAll(w, parts + [p], lineLen) == Extended(ExtendedAll(w, parts, lineLen), p, lineLen)
  {
    assert (parts + [p])[..|parts|] == parts;
  }

  lemma WithWordsStep(words: seq<string>, k: nat, positions: string -> seq<nat>, lineLen: int)
    requires k < |words|
    ensures WithWords(Wrap("", []), words[..k + 1], positions, lineLen) ==
      WithWord(WithWords(Wrap("", []), words[..k], positions, lineLen), words[k], positions(words[k]), lineLen)
  {
    TakeStep(words, k);
  }

  /** The `cur_line` and `lines` that `extend_nw` and `extend` update through `nonlocal`. */
  class LineBuilder {
    var cur: string
    var lines: seq<string>

    /** The object stores `w`: its current line, and its finished lines as `wrap_word` keeps them. */
    predicate Holds(w: Wrap)
      reads this
    {
      cur == w.cur && lines == Renders(w.done)
    }

    constructor()
      ensures Holds(Wrap("", []))
    {
      cur, lines := "", [];
    }

    /** `extend_nw(part)` */
    method ExtendNw(ghost w: Wrap, part: string, lineLen: int)
      requires Holds(w)
      modifies this
      ensures Holds(ExtendedNw(w, part, lineLen))
    {
      if |cur| + |part| > lineLen {
        RendersPush(w.done, Line(cur, false));
        lines := lines + [cur];
        cur := part;
      } else {
        cur := cur + part;
      }
    }

    /** `extend(part)` */
    method Extend(ghost w: Wrap, part: string, lineLen: int)
      requires Holds(w)
      modifies this
      ensures Holds(Extended(w, part, lineLen))
    {
      if |cur| + |part| + 1 > lineLen {
        RendersPush(w.done, Line(cur, true));
        cur := cur + "-";
        lines := lines + [cur];
        cur := part;
      } else {
        cur := cur + part;
      }
    }

    /** One pass of the word loop, cutting `word` at `ps`. */
    method AddWord(ghost w: Wrap, word: string, ps: seq<nat>, lineLen: int)
      requires Holds(w)
      modifies this
      ensures Holds(WithWord(w, word, ps, lineLen))
    {
      ghost var parts := Pieces(word, ps);
      if |ps| == 0 {
        UncutPieces(word);
        ExtendNw(w, word, lineLen);
        assert parts[1..] == [];
        cur := cur + " ";
        return;
      }
      PieceBetween(word, ps, 0);
      ExtendNw(w, Slice(word, 0, ps[0]), lineLen);
      ExtendInside(ExtendedNw(w, parts[0], lineLen), word, ps, lineLen);
      cur := cur + " ";
    }

    /** The inner loop of a pass and the `extend` after it: every part of `word` but the first. */
    method ExtendInside(ghost first: Wrap, word: string, ps: seq<nat>, lineLen: int)
      requires Holds(first) && ps != []
      modifies this
      ensures Holds(ExtendedAll(first, Pieces(word, ps)[1..], lineLen))
    {
      ghost var rest := Pieces(word, ps)[1..];
      assert rest[..0] == [];
      var c1 := 0;
      var c2 := ps[0];
      for i := 1 to |ps|
        invariant c2 == ps[i - 1]
        invariant Holds(ExtendedAll(first, rest[..i - 1], lineLen))
      {
        c1 := c2;
        c2 := ps[i];
        PieceBetween(word, ps, i);
        Extend(ExtendedAll(first, rest[..i - 1], lineLen), Slice(word, c1, c2), lineLen);
        ExtendedAllPush(first, rest[..i - 1], rest[i - 1], lineLen);
        assert rest[..i] == rest[..i - 1] + [rest[i - 1]];
      }
      PieceBetween(word, ps, |ps|);
      Extend(ExtendedAll(first, rest[..|ps| - 1], lineLen), Slice(word, c2, |word|), lineLen);
      ExtendedAllPush(first, rest[..|ps| - 1], rest[|ps| - 1], lineLen);
      assert rest == rest[..|ps| - 1] + [rest[|ps| - 1]];
    }
  }

  /** `wrap_word(full_str, line_len)`, with the dictionary's `positions` as a parameter. */
  method WrapWord(caption: Answer, lineLen: int, positions: string -> seq<nat>) returns (r: Answer)
    ensures r == WrapLabel(caption, lineLen, positions)
  {
    if caption.Num? {
      return caption;
    }
    var words := Split(caption.s);
    var b := new LineBuilder();
    for k := 0 to |words|
      invariant b.Holds(WithWords(Wrap("", []), words[..k], positions, lineLen))
    {
      b.AddWord(WithWords(Wrap("", []), words[..k], positions, lineLen), words[k], positions(words[k]), lineLen);
      WithWordsStep(words, k, positions, lineLen);
    }
    TakeAll(words);
    ghost var w := WithWords(Wrap("", []), words, positions, lineLen);
    RendersPush(w.done, Line(w.cur, false));
    b.lines := b.lines + [b.cur];
    var stripped := RStripAll(b.lines);
    r := Text(Join(stripped, "\n"));
  }
}
