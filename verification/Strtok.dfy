/** strtok: splits a buffer in place, remembering between calls where it stopped. */
module Strtok {
  import opened Memory
  import opened Strings

  // ---------------------------------------------------------------------------
  // The words of a string.
  // ---------------------------------------------------------------------------

  /** The first position from `p` on that does not hold a delimiter. */
  function Skip(s: seq<Byte>, d: seq<Byte>, p: nat): (r: nat)
    requires p <= |s|
    ensures p <= r <= |s|
    ensures forall i :: p <= i < r ==> s[i] in d
    ensures r == |s| || s[r] !in d
    decreases |s| - p
  {
    if p < |s| && s[p] in d then Skip(s, d, p + 1) else p
  }

  /** The first position from `p` on that holds a delimiter. */
  function WordEnd(s: seq<Byte>, d: seq<Byte>, p: nat): (r: nat)
    requires p <= |s|
    ensures p <= r <= |s|
    ensures forall i :: p <= i < r ==> s[i] !in d
    ensures r == |s| || s[r] in d
    decreases |s| - p
  {
    if p < |s| && s[p] !in d then WordEnd(s, d, p + 1) else p
  }

  lemma {:induction false} WordEndIs(s: seq<Byte>, d: seq<Byte>, p: nat, e: nat)
    requires p <= e <= |s| && (forall i :: p <= i < e ==> s[i] !in d) && (e == |s| || s[e] in d)
    ensures WordEnd(s, d, p) == e
    decreases e - p
  {
    if p < e {
      WordEndIs(s, d, p + 1, e);
    }
  }

  datatype Span = Span(first: nat, end: nat)

  /** The words from position `p` on, in order. */
  function Spans(s: seq<Byte>, d: seq<Byte>, p: nat): seq<Span>
    requires p <= |s|
    decreases |s| - p
  {
    var a := Skip(s, d, p);
    if a == |s| then []
    else
      var e := WordEnd(s, d, a);
      [Span(a, e)] + Spans(s, d, e)
  }

  /** A run of characters that are no delimiters, as long as can be. */
  ghost predicate MaximalRun(s: seq<Byte>, d: seq<Byte>, w: Span) {
    && w.first < w.end <= |s|
    && (forall i :: w.first <= i < w.end ==> s[i] !in d)
    && (w.first == 0 || s[w.first - 1] in d)
    && (w.end == |s| || s[w.end] in d)
  }

  /** The words are exactly the maximal runs, in order and without overlap. */
  lemma {:induction false} SpansAreMaximalRuns(s: seq<Byte>, d: seq<Byte>, p: nat)
    requires p <= |s| && (p == 0 || p == |s| || s[p] in d || s[p - 1] in d)
    ensures forall w: Span :: w in Spans(s, d, p) <==> p <= w.first && MaximalRun(s, d, w)
    ensures forall i, j :: 0 <= i < j < |Spans(s, d, p)| ==> Spans(s, d, p)[i].end < Spans(s, d, p)[j].first
    decreases |s| - p
  {
    var a := Skip(s, d, p);
    if a < |s| {
      var e := WordEnd(s, d, a);
      assert a == 0 || s[a - 1] in d;
      SpansAreMaximalRuns(s, d, e);
      var rest := Spans(s, d, e);
      forall w: Span | p <= w.first && MaximalRun(s, d, w) ensures w == Span(a, e) || w in rest {
        assert s[w.first] !in d;
      }
      forall j | 0 <= j < |rest| ensures e < rest[j].first {
        assert rest[j] in rest && MaximalRun(s, d, rest[j]);
        assert s[rest[j].first] !in d;
      }
    } else {
      forall w: Span | p <= w.first ensures !MaximalRun(s, d, w) {
        assert w.first < |s| ==> s[w.first] in d;
      }
    }
  }

  /** Going on from the delimiter that ends a word or from the place after it is the same. */
  lemma SpansAfterDelimiter(s: seq<Byte>, d: seq<Byte>, e: nat)
    requires e < |s| && s[e] in d
    ensures Spans(s, d, e) == Spans(s, d, e + 1)
  {
  }

  /** A string has no more words than characters. */
  lemma {:induction false} FewWords(s: seq<Byte>, d: seq<Byte>, p: nat)
    requires p <= |s|
    ensures |Spans(s, d, p)| <= |s| - p
    decreases |s| - p
  {
    var a := Skip(s, d, p);
    if a < |s| {
      FewWords(s, d, WordEnd(s, d, a));
    }
  }

  // ---------------------------------------------------------------------------
  // The function with its static cursor.
  // ---------------------------------------------------------------------------

  /** The inner loop of strtok: which delimiter `c` is, or their number. */
  method DelimiterIndex(c: Byte, delims: seq<Byte>) returns (i: nat)
    ensures i <= |delims| && (i < |delims| <==> c in delims)
  {
    i := 0;
    while i < |delims|
      invariant i <= |delims| && c !in delims[..i]
    {
      if c == delims[i] {
        break;
      }
      i := i + 1;
    }
  }

  class Tokenizer {
    var buf: array<Byte>     // the buffer last passed in
    var sp: int              // the static cursor; -1 for NULL
    ghost var text: seq<Byte>  // the string that was in the buffer when it was passed in

    /** From the cursor on, the buffer still holds the end of the text, NUL-terminated. */
    ghost predicate Valid()
      reads this, buf
    {
      var valid :=
        && -1 <= sp <= |text| && NoNul(text)
        && (sp >= 0 ==> |text| < buf.Length && (forall i :: sp <= i < |text| ==> buf[i] == text[i]) && buf[|text|] == 0);
      valid
    }

    constructor ()
      ensures Valid() && sp == -1
    {
      buf := new Byte[0];
      sp, text := -1, [];
    }

    /** strtok(str, delims) for a new buffer. */
    method First(str: array<Byte>, delims: seq<Byte>) returns (start: int)
      requires 0 in str[..] && NoNul(delims)
      modifies this, str
      ensures Valid() && buf == str && text == CString(old(str[..])) && |text| < str.Length
      ensures Found(text, delims, 0, old(str[..]), start, sp, buf[..])
    {
      buf, sp, text := str, 0, CString(str[..]);
      Terminated(str[..]);
      start := Next(delims);
    }

    /** The first loop of strtok: past the delimiters at the cursor. */
    method SkipDelimiters(delims: seq<Byte>) returns (p_start: nat)
      requires Valid() && sp >= 0 && NoNul(delims)
      ensures p_start == Skip(text, delims, sp)
    {
      p_start := sp;
      while true
        invariant sp <= p_start <= |text| && Skip(text, delims, sp) == Skip(text, delims, p_start)
        decreases |text| - p_start
      {
        var i := DelimiterIndex(buf[p_start], delims);
        if i == |delims| {
          break;
        }
        p_start := p_start + 1;
      }
    }

    /** The second loop: to the end of the word, which gets a NUL in place of its delimiter. */
    method CutWord(delims: seq<Byte>)
      requires Valid() && sp >= 0
      modifies this`sp, buf
      ensures Valid()
      ensures var e := WordEnd(text, delims, old(sp));
              && sp == (if e < |text| then e + 1 else e)
              && buf[..] == if e < |text| then old(buf[..])[e := 0] else old(buf[..])
    {
      while buf[sp] != 0
        invariant old(sp) <= sp <= |text| && buf[..] == old(buf[..])
        invariant WordEnd(text, delims, old(sp)) == WordEnd(text, delims, sp)
        decreases |text| - sp
      {
        var i := DelimiterIndex(buf[sp], delims);
        if i < |delims| {
          buf[sp] := 0;
          sp := sp + 1;
          break;
        }
        sp := sp + 1;
      }
    }

    /** strtok(NULL, delims): the start of the next word, which it terminates, or -1 for NULL when
        there is none, now and ever after. */
    method Next(delims: seq<Byte>) returns (start: int)
      requires Valid() && NoNul(delims)
      modifies this`sp, buf
      ensures Valid()
      ensures old(sp) == -1 ==> start == -1 && sp == -1 && buf[..] == old(buf[..])
      ensures old(sp) >= 0 ==> Found(text, delims, old(sp), old(buf[..]), start, sp, buf[..])
    {
      if sp == -1 {
        return -1;
      }
      var p_start := SkipDelimiters(delims);
      sp := p_start;
      if buf[sp] == 0 {
        sp := -1;
        return sp;
      }
      CutWord(delims);
      start := p_start;
    }
  }

  /** What one call does, started at `from`: it finds the first of the words from there on, puts a
      NUL over the delimiter behind it, and leaves the cursor before the words that remain. */
  ghost predicate Found(text: seq<Byte>, d: seq<Byte>, from: nat, before: seq<Byte>, start: int, sp: int, after: seq<Byte>)
    requires from <= |text| < |before|
  {
    if Spans(text, d, from) == [] then start == -1 && sp == -1 && after == before
    else
      var w := Spans(text, d, from)[0];
      && start == w.first && w.end <= sp <= |text|
      && after == (if w.end < |text| then before[w.end := 0] else before)
      && Spans(text, d, sp) == Spans(text, d, from)[1..]
  }

  /** Read as a string, the word a call returns is the word it found. */
  lemma FoundText(text: seq<Byte>, d: seq<Byte>, from: nat, before: seq<Byte>, start: int, sp: int, after: seq<Byte>)
    requires from <= |text| < |before| && Found(text, d, from, before, start, sp, after) && Spans(text, d, from) != []
    requires NoNul(text) && before[|text|] == 0 && forall i :: from <= i < |text| ==> before[i] == text[i]
    ensures var w := Spans(text, d, from)[0];
            w.first < w.end <= |text| && 0 in after[w.first..] && CString(after[w.first..]) == text[w.first..w.end]
  {
    var w := Spans(text, d, from)[0];
    assert w.first < w.end <= |text| && after[w.end] == 0 && after[w.first..w.end] == text[w.first..w.end];
    TailReads(after, w.first, w.end, text[w.first..w.end]);
  }

  lemma TailReads(buf: seq<Byte>, first: nat, end: nat, word: seq<Byte>)
    requires first < end < |buf| && buf[end] == 0 && buf[first..end] == word && NoNul(word)
    ensures 0 in buf[first..] && CString(buf[first..]) == word
  {
    var tail := buf[first..];
    assert tail[end - first] == 0;
    assert tail[..end - first] == word;
    assert forall i :: 0 <= i < end - first ==> tail[i] == word[i];
    CStringPrefix(tail, end - first);
  }

  /** The texts of the words of a string. */
  function Words(s: seq<Byte>, d: seq<Byte>): (ws: seq<seq<Byte>>)
    ensures |ws| == |Spans(s, d, 0)|
  {
    SpansInside(s, d, 0);
    seq(|Spans(s, d, 0)|, i requires 0 <= i < |Spans(s, d, 0)| => s[Spans(s, d, 0)[i].first..Spans(s, d, 0)[i].end])
  }

  lemma {:induction false} SpansInside(s: seq<Byte>, d: seq<Byte>, p: nat)
    requires p <= |s|
    ensures forall w :: w in Spans(s, d, p) ==> p <= w.first < w.end <= |s|
    decreases |s| - p
  {
    var a := Skip(s, d, p);
    if a < |s| {
      SpansInside(s, d, WordEnd(s, d, a));
    }
  }

  // ---------------------------------------------------------------------------
  // All calls on one buffer.
  // ---------------------------------------------------------------------------

  /** One of the first `n` words ends at `j`. */
  ghost predicate EndsWord(words: seq<Span>, n: nat, j: int) {
    exists i :: 0 <= i < n && i < |words| && words[i].end == j
  }

  /** The buffer after `n` words are cut off: NULs over the delimiters behind them, else unchanged. */
  ghost predicate CutUpTo(before: seq<Byte>, after: seq<Byte>, text: seq<Byte>, words: seq<Span>, n: nat) {
    var cut := |after| == |before| &&
      forall j :: 0 <= j < |before| ==> after[j] == if j < |text| && EndsWord(words, n, j) then 0 else before[j];
    cut
  }

  lemma CutOneMore(before: seq<Byte>, mid: seq<Byte>, after: seq<Byte>, text: seq<Byte>, words: seq<Span>, n: nat)
    requires CutUpTo(before, mid, text, words, n) && n < |words| && |text| < |before|
    requires after == if words[n].end < |text| then mid[words[n].end := 0] else mid
    ensures CutUpTo(before, after, text, words, n + 1)
  {
    forall j | 0 <= j < |before| ensures after[j] == if j < |text| && EndsWord(words, n + 1, j) then 0 else before[j] {
      assert EndsWord(words, n + 1, j) <==> EndsWord(words, n, j) || words[n].end == j;
    }
  }

  /** No word ends inside a word. */
  lemma NoEndInside(text: seq<Byte>, d: seq<Byte>, i: nat, j: int)
    requires var words := Spans(text, d, 0); i < |words| && words[i].first <= j < words[i].end
    ensures var words := Spans(text, d, 0); !EndsWord(words, |words|, j)
  {
    var words := Spans(text, d, 0);
    SpansAreMaximalRuns(text, d, 0);
    forall k | 0 <= k < |words| ensures words[k].end != j {
      assert words[k] in words && MaximalRun(text, d, words[k]);
    }
  }

  /** When all words are cut off, each reads as itself from its start. */
  lemma CutWordsRead(before: seq<Byte>, after: seq<Byte>, text: seq<Byte>, d: seq<Byte>, i: nat)
    requires text + [0] <= before && NoNul(text) && i < |Spans(text, d, 0)|
    requires CutUpTo(before, after, text, Spans(text, d, 0), |Spans(text, d, 0)|)
    ensures i < |Words(text, d)| && Spans(text, d, 0)[i].first <= |after|
    ensures CString(after[Spans(text, d, 0)[i].first..]) == Words(text, d)[i]
  {
    var words := Spans(text, d, 0);
    var w := words[i];
    SpansInside(text, d, 0);
    assert w in words && before[|text|] == (text + [0])[|text|];
    forall j | w.first <= j < w.end ensures after[j] == text[j] {
      NoEndInside(text, d, i, j);
      assert before[j] == (text + [0])[j];
    }
    assert EndsWord(words, |words|, w.end);
    ReadsAs(after, w, text);
  }

  lemma ReadsAs(after: seq<Byte>, w: Span, text: seq<Byte>)
    requires w.first <= w.end <= |text| && w.end < |after| && after[w.end] == 0 && NoNul(text)
    requires forall j :: w.first <= j < w.end ==> after[j] == text[j]
    ensures CString(after[w.first..]) == text[w.first..w.end]
  {
    var tail := after[w.first..];
    CStringPrefix(tail, w.end - w.first);
    assert tail[..w.end - w.first] == text[w.first..w.end];
  }

  lemma FoundIsAnswer(left: seq<Span>, before: seq<Byte>, after: seq<Byte>, text: seq<Byte>, d: seq<Byte>, from: nat, token: int, sp: int)
    requires from <= |text| < |before| && Found(text, d, from, before, token, sp, after) && Spans(text, d, from) == left
    ensures Answered(left, before, after, text, d, token, sp)
  {
  }

  method AskFirst(tk: Tokenizer, str: array<Byte>, delims: seq<Byte>) returns (token: int)
    requires 0 in str[..] && NoNul(delims)
    modifies tk, str
    ensures tk.Valid() && tk.buf == str && tk.text == CString(old(str[..]))
    ensures Answered(Spans(tk.text, delims, 0), old(str[..]), str[..], tk.text, delims, token, tk.sp)
  {
    ghost var before := str[..];
    token := tk.First(str, delims);
    FoundIsAnswer(Spans(tk.text, delims, 0), before, str[..], tk.text, delims, 0, token, tk.sp);
  }

  method AskNext(tk: Tokenizer, delims: seq<Byte>, ghost left: seq<Span>) returns (token: int)
    requires tk.Valid() && NoNul(delims) && 0 <= tk.sp <= |tk.text| && Spans(tk.text, delims, tk.sp) == left
    modifies tk`sp, tk.buf
    ensures tk.Valid() && Answered(left, old(tk.buf[..]), tk.buf[..], tk.text, delims, token, tk.sp)
  {
    ghost var before, from := tk.buf[..], tk.sp;
    token := tk.Next(delims);
    FoundIsAnswer(left, before, tk.buf[..], tk.text, delims, from, token, tk.sp);
  }

  /** The starts are those of the words, in order; each word reads as itself from there; and NULs have
      come only over the delimiters behind words. */
  ghost predicate TakenApart(before: seq<Byte>, after: seq<Byte>, d: seq<Byte>, starts: seq<nat>) {
    var text := CString(before);
    var words := Spans(text, d, 0);
    var apart :=
      && |starts| == |words| && CutUpTo(before, after, text, words, |words|)
      && forall i :: 0 <= i < |words| ==>
           starts[i] == words[i].first <= |after| && CString(after[starts[i]..]) == Words(text, d)[i];
    apart
  }

  /** A program that takes a string apart: strtok with the buffer, then with NULL until it answers
      NULL. The answers are the starts of the words, in order, each of which then reads as its word;
      of the buffer only the delimiters behind words have become NULs. */
  method AllTokens(tk: Tokenizer, str: array<Byte>, delims: seq<Byte>) returns (starts: seq<nat>)
    requires 0 in str[..] && NoNul(delims)
    modifies tk, str
    ensures tk.Valid() && tk.buf == str && tk.sp == -1
    ensures TakenApart(old(str[..]), str[..], delims, starts)
  {
    ghost var before := str[..];
    starts := [];
    var token := AskFirst(tk, str, delims);
    ghost var text, words, mid := tk.text, Spans(tk.text, delims, 0), before;
    ghost var left := words;
    NothingTaken(before, text, words);
    while token != -1
      invariant tk.Valid() && tk.buf == str && tk.text == text
      invariant Between(before, mid, str[..], text, delims, words, starts, left, token, tk.sp)
      decreases |left|
    {
      ghost var next := str[..];
      starts, token := TakeToken(tk, delims, starts, token, before, mid, words, left);
      mid, left := next, left[1..];
    }
    AllTaken(before, mid, str[..], text, delims, words, starts, left, token, tk.sp);
  }

  /** The token is the start of the next word; then strtok(NULL) answers. */
  method TakeToken(tk: Tokenizer, delims: seq<Byte>, starts: seq<nat>, token: int,
                   ghost before: seq<Byte>, ghost mid: seq<Byte>, ghost words: seq<Span>, ghost left: seq<Span>)
    returns (more: seq<nat>, next: int)
    requires tk.Valid() && NoNul(delims) && token != -1
    requires Between(before, mid, tk.buf[..], tk.text, delims, words, starts, left, token, tk.sp)
    modifies tk`sp, tk.buf
    ensures tk.Valid() && left != []
    ensures Between(before, old(tk.buf[..]), tk.buf[..], tk.text, delims, words, more, left[1..], next, tk.sp)
  {
    Advance(before, mid, tk.buf[..], tk.text, delims, words, starts, left, token, tk.sp);
    more := starts + [token];
    next := AskNext(tk, delims, left[1..]);
  }

  /** Between two calls: some words have been returned and cut off, the others are left. */
  ghost predicate Underway(before: seq<Byte>, mid: seq<Byte>, text: seq<Byte>, words: seq<Span>, starts: seq<nat>, left: seq<Span>) {
    var underway := |text| < |before| && AnsweredSoFar(words, starts, left) && CutUpTo(before, mid, text, words, |starts|);
    underway
  }

  /** And the answer to the last call is at hand. */
  ghost predicate Between(before: seq<Byte>, mid: seq<Byte>, buf: seq<Byte>, text: seq<Byte>, d: seq<Byte>,
                          words: seq<Span>, starts: seq<nat>, left: seq<Span>, token: int, sp: int)
  {
    var between := Underway(before, mid, text, words, starts, left) && Answered(left, mid, buf, text, d, token, sp);
    between
  }

  lemma NothingTaken(before: seq<Byte>, text: seq<Byte>, words: seq<Span>)
    requires 0 in before && text == CString(before)
    ensures Underway(before, before, text, words, [], words)
  {
    Terminated(before);
  }

  lemma Advance(before: seq<Byte>, mid: seq<Byte>, after: seq<Byte>, text: seq<Byte>, d: seq<Byte>,
                words: seq<Span>, starts: seq<nat>, left: seq<Span>, token: int, sp: int)
    requires Between(before, mid, after, text, d, words, starts, left, token, sp) && token != -1
    ensures left != [] && token >= 0 && 0 <= sp <= |text| && Spans(text, d, sp) == left[1..]
    ensures Underway(before, after, text, words, starts + [token], left[1..])
  {
    AnswerIs(left, mid, after, text, d, token, sp);
    TakeAnswer(words, starts, left);
    CutOneMore(before, mid, after, text, words, |starts|);
  }

  lemma AllTaken(before: seq<Byte>, mid: seq<Byte>, after: seq<Byte>, text: seq<Byte>, d: seq<Byte>,
                 words: seq<Span>, starts: seq<nat>, left: seq<Span>, token: int, sp: int)
    requires 0 in before && text == CString(before) && words == Spans(text, d, 0)
    requires Between(before, mid, after, text, d, words, starts, left, token, sp) && token == -1
    ensures TakenApart(before, after, d, starts) && sp == -1
  {
    Terminated(before);
    forall i | 0 <= i < |words| ensures words[i].first <= |after| && CString(after[words[i].first..]) == Words(text, d)[i] {
      CutWordsRead(before, after, text, d, i);
    }
  }

  /** The starts of the first words have been returned, and the others are left. */
  ghost predicate AnsweredSoFar(words: seq<Span>, starts: seq<nat>, left: seq<Span>) {
    var soFar := |starts| <= |words| && left == words[|starts|..] && forall i :: 0 <= i < |starts| ==> starts[i] == words[i].first;
    soFar
  }

  lemma TakeAnswer(words: seq<Span>, starts: seq<nat>, left: seq<Span>)
    requires AnsweredSoFar(words, starts, left) && left != []
    ensures |starts| < |words| && left[0] == words[|starts|] && AnsweredSoFar(words, starts + [left[0].first], left[1..])
  {
  }

  lemma AnswerIs(left: seq<Span>, before: seq<Byte>, after: seq<Byte>, text: seq<Byte>, d: seq<Byte>, token: int, sp: int)
    requires Answered(left, before, after, text, d, token, sp) && token != -1 && |text| < |before|
    ensures left != [] && token == left[0].first && 0 <= sp <= |text| && Spans(text, d, sp) == left[1..]
    ensures after == if left[0].end < |text| then before[left[0].end := 0] else before
  {
  }

  /** The answer to a call when the given words are left. */
  ghost predicate Answered(left: seq<Span>, before: seq<Byte>, after: seq<Byte>, text: seq<Byte>, d: seq<Byte>, token: int, sp: int) {
    var answered :=
      if left == [] then token == -1 && sp == -1 && after == before
      else
        && token == left[0].first && 0 <= sp <= |text| && Spans(text, d, sp) == left[1..]
        && after == (if left[0].end < |text| && left[0].end < |before| then before[left[0].end := 0] else before);
    answered
  }
}
