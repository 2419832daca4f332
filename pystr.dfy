/**
  The parts of Python's `str` that the survey script leans on: `isspace`,
  `strip`/`lstrip`/`rstrip`, `split()` without arguments, `join` and slicing
  with non-negative bounds.
*/
module PyStr {

  /** `c.isspace()`: the characters Python strips and splits on by default. */
  predicate IsSpace(c: char) {
    c as int in SpaceCodes
  }

  /** Code points of the characters for which `str.isspace()` holds. */
  const SpaceCodes: set<int> := {
    0x09, 0x0A, 0x0B, 0x0C, 0x0D, 0x1C, 0x1D, 0x1E, 0x1F, 0x20, 0x85, 0xA0, 0x1680,
    0x2000, 0x2001, 0x2002, 0x2003, 0x2004, 0x2005, 0x2006, 0x2007, 0x2008, 0x2009, 0x200A,
    0x2028, 0x2029, 0x202F, 0x205F, 0x3000
  }

  /** A word as `split()` returns it: not empty, and no white space in it. */
  predicate IsWord(w: string) {
    w != [] && NoSpace(w)
  }

  predicate NoSpace(s: string) {
    forall i :: 0 <= i < |s| ==> !IsSpace(s[i])
  }

  predicate AllSpace(s: string) {
    forall i :: 0 <= i < |s| ==> IsSpace(s[i])
  }

  /** The number of leading characters of `s` that `drop` accepts. */
  function Leading(s: string, drop: char -> bool): (k: nat)
    ensures k <= |s|
    ensures forall i :: 0 <= i < k ==> drop(s[i])
    ensures k == |s| || !drop(s[k])
  {
    if s == [] || !drop(s[0]) then 0 else 1 + Leading(s[1..], drop)
  }

  /** The number of trailing characters of `s` that `drop` accepts. */
  function Trailing(s: string, drop: char -> bool): (k: nat)
    ensures k <= |s|
    ensures forall i :: |s| - k <= i < |s| ==> drop(s[i])
    ensures k == |s| || !drop(s[|s| - 1 - k])
  {
    if s == [] || !drop(s[|s| - 1]) then 0 else 1 + Trailing(s[..|s| - 1], drop)
  }

  /** `s` without the characters `drop` accepts at either end. */
  function StripBy(s: string, drop: char -> bool): string {
    var t := s[Leading(s, drop)..];
    t[..|t| - Trailing(t, drop)]
  }

  /** `s.lstrip()` */
  function LStrip(s: string): (r: string)
    ensures |r| <= |s| && r == s[|s| - |r|..]
    ensures AllSpace(s[..|s| - |r|])
    ensures r == [] || !IsSpace(r[0])
  {
    s[Leading(s, IsSpace)..]
  }

  /** `s.rstrip()` */
  function RStrip(s: string): (r: string)
    ensures |r| <= |s| && r == s[..|r|]
    ensures AllSpace(s[|r|..])
    ensures r == [] || !IsSpace(r[|r| - 1])
  {
    s[..|s| - Trailing(s, IsSpace)]
  }

  /** `s.strip()` */
  function Strip(s: string): string {
    StripBy(s, IsSpace)
  }

  /** Stripping a string that is padded only with dropped characters gives back the text. */
  lemma StripByPadded(pre: string, t: string, post: string, drop: char -> bool)
    requires forall i :: 0 <= i < |pre| ==> drop(pre[i])
    requires forall i :: 0 <= i < |post| ==> drop(post[i])
    requires t != [] && !drop(t[0]) && !drop(t[|t| - 1])
    ensures StripBy(pre + t + post, drop) == t
  {
    var s := pre + t + post;
    forall i | 0 <= i < |pre| ensures drop(s[i]) {
      assert s[i] == pre[i];
    }
    assert s[|pre|] == t[0];
    var k := Leading(s, drop);
    assert k == |pre|;
    assert s[k..] == t + post;
    var u := t + post;
    forall i | |t| <= i < |u| ensures drop(u[i]) {
      assert u[i] == post[i - |t|];
    }
    assert u[|t| - 1] == t[|t| - 1];
    var m := Trailing(u, drop);
    assert m == |post|;
    assert u[..|u| - m] == t;
  }

  /**
    `StripBy` takes off the two ends exactly the characters it drops, and no
    more: what it keeps starts and ends with a kept character. So the text is
    stripped to nothing exactly when every character of it is dropped.
  */
  lemma StripByParts(s: string, drop: char -> bool) returns (pre: string, post: string)
    ensures s == pre + StripBy(s, drop) + post
    ensures forall i :: 0 <= i < |pre| ==> drop(pre[i])
    ensures forall i :: 0 <= i < |post| ==> drop(post[i])
    ensures var r := StripBy(s, drop); r == [] || (!drop(r[0]) && !drop(r[|r| - 1]))
  {
    var k := Leading(s, drop);
    var u := s[k..];
    var m := Trailing(u, drop);
    assert StripBy(s, drop) == u[..|u| - m];
    StripByKeptEnds(s, drop);
    pre, post := CutEnds(s, k, m);
    PrefixDropped(s, k, pre, drop);
    SuffixDropped(u, m, post, drop);
  }

  lemma StripByKeptEnds(s: string, drop: char -> bool)
    ensures var r := StripBy(s, drop); r == [] || (!drop(r[0]) && !drop(r[|r| - 1]))
  {
    var k := Leading(s, drop);
    var u := s[k..];
    var m := Trailing(u, drop);
    var r := u[..|u| - m];
    if r != [] {
      assert r[0] == s[k];
      assert r[|r| - 1] == u[|u| - 1 - m];
    }
  }

  /** `StripBy` leaves nothing exactly when every character is dropped. */
  lemma StripByEmpty(s: string, drop: char -> bool)
    ensures StripBy(s, drop) == [] <==> forall i :: 0 <= i < |s| ==> drop(s[i])
  {
    if StripBy(s, drop) == [] {
      var pre, post := StripByParts(s, drop);
      assert s == pre + post;
      DroppedBoth(pre, post, drop);
    }
  }

  lemma DroppedBoth(pre: string, post: string, drop: char -> bool)
    requires forall i :: 0 <= i < |pre| ==> drop(pre[i])
    requires forall i :: 0 <= i < |post| ==> drop(post[i])
    ensures forall i :: 0 <= i < |pre + post| ==> drop((pre + post)[i])
  {
    forall i | 0 <= i < |pre + post| ensures drop((pre + post)[i]) {
      if i < |pre| {
        assert (pre + post)[i] == pre[i];
      } else {
        assert (pre + post)[i] == post[i - |pre|];
      }
    }
  }

  /** `strip()` of nothing but white space, such as the `"\n"` between two tags, is empty; of anything else, it is not. */
  lemma StripAllSpace(s: string)
    ensures Strip(s) == [] <==> AllSpace(s)
  {
    StripByEmpty(s, IsSpace);
  }

  lemma PrefixDropped(s: string, k: nat, pre: string, drop: char -> bool)
    requires k <= |s| && pre == s[..k]
    requires forall i :: 0 <= i < k ==> drop(s[i])
    ensures forall i :: 0 <= i < |pre| ==> drop(pre[i])
  {
    forall i | 0 <= i < |pre| ensures drop(pre[i]) {
      assert pre[i] == s[i];
    }
  }

  lemma SuffixDropped(u: string, m: nat, post: string, drop: char -> bool)
    requires m <= |u| && post == u[|u| - m..]
    requires forall i :: |u| - m <= i < |u| ==> drop(u[i])
    ensures forall i :: 0 <= i < |post| ==> drop(post[i])
  {
    forall i | 0 <= i < |post| ensures drop(post[i]) {
      assert post[i] == u[|u| - m + i];
    }
  }

  lemma CutEnds(s: string, k: nat, m: nat) returns (pre: string, post: string)
    requires k <= |s| && m <= |s| - k
    ensures pre == s[..k] && post == s[k..][|s| - k - m..]
    ensures s == pre + s[k..][..|s| - k - m] + post
  {
    var u := s[k..];
    var x := u[..|u| - m];
    pre, post := s[..k], u[|u| - m..];
    assert s == pre + u;
    assert u == x + post;
    assert pre + x + post == pre + (x + post);
  }

  /** The length of the run of non-space characters that starts `s`. */
  function WordLength(s: string): (n: nat)
    ensures n <= |s| && NoSpace(s[..n])
    ensures n == |s| || IsSpace(s[n])
  {
    if s == [] || IsSpace(s[0]) then 0 else 1 + WordLength(s[1..])
  }

  /** `s.split()`: the maximal runs of non-space characters, in order. */
  function Split(s: string): (words: seq<string>)
    ensures forall i :: 0 <= i < |words| ==> IsWord(words[i])
    decreases |s|
  {
    var t := LStrip(s);
    if t == [] then []
    else
      var n := WordLength(t);
      assert IsWord(t[..n]);
      var rest := Split(t[n..]);
      assert forall i :: 0 < i < |rest| + 1 ==> ([t[..n]] + rest)[i] == rest[i - 1];
      [t[..n]] + rest
  }

  /** The characters of `s` that are not white space, in order. */
  function Squeezed(s: string): (r: string)
    ensures NoSpace(r)
  {
    if s == [] then []
    else Squeezed(s[..|s| - 1]) + (if IsSpace(s[|s| - 1]) then [] else [s[|s| - 1]])
  }

  /** `gaps[0] + words[0] + gaps[1] + ... + words[n - 1] + gaps[n]` */
  function Interleave(gaps: seq<string>, words: seq<string>): string
    requires |gaps| == |words| + 1
  {
    if words == [] then gaps[0] else gaps[0] + words[0] + Interleave(gaps[1..], words[1..])
  }

  /** The first step of `split()`: the white space in front, the first word, and the rest after it. */
  lemma SplitFirst(s: string) returns (pre: string, w: string, rest: string)
    requires LStrip(s) != []
    ensures s == pre + (w + rest) && AllSpace(pre) && IsWord(w)
    ensures rest == [] || IsSpace(rest[0])
    ensures Split(s) == [w] + Split(rest)
    ensures !IsSpace(s[0]) ==> pre == []
  {
    var t := LStrip(s);
    pre := s[..|s| - |t|];
    var n := WordLength(t);
    w, rest := t[..n], t[n..];
    assert t == w + rest;
    if pre != [] {
      assert s[0] == pre[0];
    }
  }

  /**
    `split()` cuts `s` into words and the white space around them: `s` is
    white space, a word, white space, ..., a word, white space, and the
    white space between two words is never empty. So the words are exactly
    the maximal runs of non-space characters of `s`, in order.
  */
  lemma {:induction false} SplitLayout(s: string) returns (gaps: seq<string>)
    ensures |gaps| == |Split(s)| + 1
    ensures s == Interleave(gaps, Split(s))
    ensures GapsSpace(gaps) && InnerGapsFilled(gaps)
    ensures s != [] && IsSpace(s[0]) ==> gaps[0] != []
    decreases |s|
  {
    if LStrip(s) == [] {
      SplitNone(s);
      gaps := [s];
    } else {
      var pre, w, rest := SplitFirst(s);
      var g := SplitLayout(rest);
      InterleaveFront(pre, w, g, Split(rest));
      if |g| > 1 {
        assert Split(rest) != [];
        assert rest != [];
      }
      GapsCons(pre, g);
      gaps := [pre] + g;
    }
  }

  /** Every gap between the words is white space. */
  predicate GapsSpace(gaps: seq<string>) {
    forall i :: 0 <= i < |gaps| ==> AllSpace(gaps[i])
  }

  /** Every gap strictly between two words holds at least one character. */
  predicate InnerGapsFilled(gaps: seq<string>) {
    forall i :: 0 < i < |gaps| - 1 ==> gaps[i] != []
  }

  lemma GapsCons(pre: string, g: seq<string>)
    requires AllSpace(pre) && GapsSpace(g) && InnerGapsFilled(g)
    requires |g| > 1 ==> g[0] != []
    ensures GapsSpace([pre] + g) && InnerGapsFilled([pre] + g)
  {
    var gaps := [pre] + g;
    forall i | 0 <= i < |gaps| ensures AllSpace(gaps[i]) {
      if i > 0 {
        assert gaps[i] == g[i - 1];
      }
    }
    forall i | 0 < i < |gaps| - 1 ensures gaps[i] != [] {
      assert gaps[i] == g[i - 1];
    }
  }

  /** Nothing but white space: `split()` finds no word. */
  lemma SplitNone(s: string)
    requires LStrip(s) == []
    ensures Split(s) == [] && AllSpace(s)
  {
    assert s[..|s|] == s;
  }

  lemma InterleaveFront(pre: string, w: string, g: seq<string>, words: seq<string>)
    requires |g| == |words| + 1
    ensures Interleave([pre] + g, [w] + words) == pre + (w + Interleave(g, words))
    ensures forall i :: 0 < i < |g| + 1 ==> ([pre] + g)[i] == g[i - 1]
  {
    assert ([pre] + g)[1..] == g;
    assert ([w] + words)[1..] == words;
  }

  /** The words `split()` returns, laid end to end, are the non-space characters of `s`. */
  lemma {:induction false} SplitKeepsNonSpace(s: string)
    ensures Concat(Split(s)) == Squeezed(s)
    decreases |s|
  {
    if LStrip(s) == [] {
      SplitNone(s);
      SqueezedSpace(s);
    } else {
      var pre, w, rest := SplitFirst(s);
      SplitKeepsNonSpace(rest);
      SqueezedParts(pre, w, rest);
      ConcatCons(w, Split(rest));
    }
  }

  lemma ConcatCons<T>(w: seq<T>, lists: seq<seq<T>>)
    ensures Concat([w] + lists) == w + Concat(lists)
  {
    ConcatFront([w] + lists);
    assert ([w] + lists)[1..] == lists;
  }

  lemma SqueezedParts(pre: string, w: string, rest: string)
    requires AllSpace(pre) && NoSpace(w)
    ensures Squeezed(pre + (w + rest)) == w + Squeezed(rest)
  {
    SqueezedAppend(pre, w + rest);
    SqueezedAppend(w, rest);
    SqueezedSpace(pre);
    SqueezedWord(w);
  }

  lemma {:induction false} SqueezedAppend(a: string, b: string)
    ensures Squeezed(a + b) == Squeezed(a) + Squeezed(b)
  {
    if b == [] {
      assert a + b == a;
    } else {
      var init, last := b[..|b| - 1], b[|b| - 1];
      var tail := if IsSpace(last) then [] else [last];
      AppendLast(a, b);
      assert (a + b)[..|a + b| - 1] == a + init;
      SqueezedAppend(a, init);
      AppendAssoc(Squeezed(a), Squeezed(init), tail);
    }
  }

  lemma {:induction false} SqueezedSpace(s: string)
    requires AllSpace(s)
    ensures Squeezed(s) == []
  {
    if s != [] {
      SqueezedSpace(s[..|s| - 1]);
    }
  }

  lemma {:induction false} SqueezedWord(s: string)
    requires NoSpace(s)
    ensures Squeezed(s) == s
  {
    if s != [] {
      SqueezedWord(s[..|s| - 1]);
      InitLast(s);
    }
  }

  /** Each word followed by one blank: the text a sequence of words fills a line with. */
  function Spaced(words: seq<string>): string {
    if words == [] then [] else words[0] + " " + Spaced(words[1..])
  }

  /** The lists one after another: `sum(lists, [])`, or `''.join(parts)` for strings. */
  function Concat<T>(lists: seq<seq<T>>): seq<T> {
    if lists == [] then [] else Concat(lists[..|lists| - 1]) + lists[|lists| - 1]
  }

  /** `sep.join(parts)` */
  function Join(parts: seq<string>, sep: string): string {
    if parts == [] then []
    else if |parts| == 1 then parts[0]
    else parts[0] + sep + Join(parts[1..], sep)
  }

  /** `w[a:b]` for non-negative bounds: bounds past the end are clamped, and an empty range gives "". */
  function Slice(w: string, a: nat, b: nat): (r: string)
    ensures a <= b <= |w| ==> r == w[a..b]
  {
    var hi := if b <= |w| then b else |w|;
    var lo := if a <= hi then a else hi;
    w[lo..hi]
  }

  lemma {:induction false} ConcatFront<T>(lists: seq<seq<T>>)
    requires lists != []
    ensures Concat(lists) == lists[0] + Concat(lists[1..])
  {
    if |lists| == 1 {
      assert lists[..0] == [] && lists[1..] == [];
    } else {
      var init, last, tail := lists[..|lists| - 1], lists[|lists| - 1], lists[1..];
      ConcatFront(init);
      DropInit(lists);
      calc {
        Concat(lists);
        Concat(init) + last;
        (init[0] + Concat(init[1..])) + last;
        { AppendAssoc(init[0], Concat(init[1..]), last); }
        lists[0] + (Concat(tail[..|tail| - 1]) + tail[|tail| - 1]);
        lists[0] + Concat(tail);
      }
    }
  }

  lemma InitLast<T>(s: seq<T>)
    requires s != []
    ensures s[..|s| - 1] + [s[|s| - 1]] == s
  {
  }

  lemma TakeStep<T>(s: seq<T>, k: nat)
    requires k < |s|
    ensures s[..k + 1][..k] == s[..k] && s[..k + 1][k] == s[k]
  {
  }

  lemma PrefixJoin<T>(s: seq<T>, i: nat, j: nat)
    requires i <= j <= |s|
    ensures s[..i] + s[i..j] == s[..j]
  {
  }

  /** Dropping the first and dropping the last element commute. */
  lemma DropInit<T>(s: seq<T>)
    requires |s| >= 2
    ensures s[..|s| - 1][1..] == s[1..][..|s| - 2]
    ensures s[1..][|s| - 2] == s[|s| - 1]
  {
  }

  lemma AppendAssoc<T>(a: seq<T>, b: seq<T>, c: seq<T>)
    ensures (a + b) + c == a + (b + c)
  {
  }

  /** `a + b` is `a` with the front of `b`, then the last element of `b`. */
  lemma AppendLast<T>(a: seq<T>, b: seq<T>)
    requires b != []
    ensures b == b[..|b| - 1] + [b[|b| - 1]]
    ensures a + b == (a + b[..|b| - 1]) + [b[|b| - 1]]
  {
  }

  lemma TakeAll<T>(s: seq<T>)
    ensures s[..|s|] == s
  {
  }

  /** One more word adds the word and its blank at the end. */
  lemma {:induction false} SpacedAppend(words: seq<string>, w: string)
    ensures Spaced(words + [w]) == Spaced(words) + w + " "
  {
    if words == [] {
      assert [w][1..] == [];
    } else {
      assert (words + [w])[1..] == words[1..] + [w];
      SpacedAppend(words[1..], w);
    }
  }

  /** `split` takes back what `Spaced` puts together. */
  lemma {:induction false} SplitSpaced(words: seq<string>)
    requires forall i :: 0 <= i < |words| ==> IsWord(words[i])
    ensures Split(Spaced(words)) == words
  {
    if words != [] {
      var w, rest := words[0], words[1..];
      assert IsWord(w);
      AllWordsTail(words);
      calc {
        Split(Spaced(words));
        { SpacedFirst(words); }
        Split(w + (" " + Spaced(rest)));
        { SplitWordFirst(w, Spaced(rest)); }
        [w] + Split(Spaced(rest));
        { SplitSpaced(rest); }
        [w] + rest;
      }
    }
  }

  lemma SpacedFirst(words: seq<string>)
    requires words != []
    ensures Spaced(words) == words[0] + (" " + Spaced(words[1..]))
  {
  }

  lemma AllWordsTail(words: seq<string>)
    requires words != []
    requires forall i :: 0 <= i < |words| ==> IsWord(words[i])
    ensures forall i :: 0 <= i < |words[1..]| ==> IsWord(words[1..][i])
  {
  }

  /** A word followed by a blank is the first word `split` finds. */
  lemma SplitWordFirst(w: string, rest: string)
    requires IsWord(w)
    ensures Split(w + (" " + rest)) == [w] + Split(rest)
  {
    var s := w + (" " + rest);
    assert s[0] == w[0];
    assert Leading(s, IsSpace) == 0;
    var t := LStrip(s);
    assert t == s;
    WordLengthOf(w, rest);
    var n := WordLength(t);
    assert Split(s) == [t[..n]] + Split(t[n..]);
    assert t[..n] == w;
    assert t[n..] == " " + rest;
    SplitBlank(rest);
  }

  lemma {:induction false} WordLengthOf(w: string, rest: string)
    requires NoSpace(w)
    ensures WordLength(w + (" " + rest)) == |w|
  {
    if w == [] {
      assert (" " + rest)[0] == ' ';
    } else {
      assert (w + (" " + rest))[0] == w[0];
      assert (w + (" " + rest))[1..] == w[1..] + (" " + rest);
      WordLengthOf(w[1..], rest);
    }
  }

  /** A blank in front does not change `split`. */
  lemma SplitBlank(rest: string)
    ensures Split(" " + rest) == Split(rest)
  {
    var s := " " + rest;
    assert s[1..] == rest;
    assert Leading(s, IsSpace) == 1 + Leading(rest, IsSpace);
    assert LStrip(s) == LStrip(rest);
  }
}
