/** The corpus tokenizer: splitting the corpus bytes into words at runs of
    whitespace, as `str::split_whitespace` does for ASCII whitespace. */
module Tokenizer {
  import opened Prefixes

  /** ASCII whitespace: tab, line feed, vertical tab, form feed, carriage
      return and space. */
  predicate IsSpace(c: byte)
  {
    c == 32 || 9 <= c <= 13
  }

  /** A token: a non-empty run of non-whitespace bytes. */
  predicate IsToken(w: Word)
  {
    w != [] && forall i :: 0 <= i < |w| ==> !IsSpace(w[i])
  }

  /** The length of the run of non-whitespace bytes that starts `s`. */
  function WordLen(s: seq<byte>): (n: nat)
    ensures n <= |s|
    ensures forall i :: 0 <= i < n ==> !IsSpace(s[i])
    ensures n < |s| ==> IsSpace(s[n])
  {
    if s == [] || IsSpace(s[0]) then 0 else 1 + WordLen(s[1..])
  }

  /** The words of `s`, in order, with every run of whitespace acting as one
      separator and no empty words. */
  function SplitWhitespace(s: seq<byte>): (ws: seq<Word>)
    ensures forall k :: 0 <= k < |ws| ==> IsToken(ws[k])
    decreases |s|
  {
    if s == [] then []
    else if IsSpace(s[0]) then SplitWhitespace(s[1..])
    else
      var n := WordLen(s);
      [s[..n]] + SplitWhitespace(s[n..])
  }

  /** The bytes of `s` with every whitespace byte deleted. */
  function Squeeze(s: seq<byte>): seq<byte>
  {
    if s == [] then [] else (if IsSpace(s[0]) then [] else [s[0]]) + Squeeze(s[1..])
  }

  /** All the words laid end to end. */
  function Concat(ws: seq<Word>): seq<byte>
  {
    if ws == [] then [] else ws[0] + Concat(ws[1..])
  }

  lemma {:induction false} SqueezeWord(s: seq<byte>, n: nat)
    requires n <= |s|
    requires forall i :: 0 <= i < n ==> !IsSpace(s[i])
    ensures Squeeze(s) == s[..n] + Squeeze(s[n..])
  {
    if n > 0 {
      SqueezeWord(s[1..], n - 1);
      assert s[1..][..n - 1] == s[1..n];
      assert s[1..][n - 1..] == s[n..];
      assert [s[0]] + s[1..n] == s[..n];
    }
  }

  /** Tokenizing loses no content and keeps its order: the words laid end
      to end are exactly the corpus with its whitespace removed. */
  lemma {:induction false} SplitKeepsContent(s: seq<byte>)
    ensures Concat(SplitWhitespace(s)) == Squeeze(s)
    decreases |s|
  {
    if s != [] {
      if IsSpace(s[0]) {
        SplitKeepsContent(s[1..]);
      } else {
        var n := WordLen(s);
        var ws := SplitWhitespace(s);
        assert ws == [s[..n]] + SplitWhitespace(s[n..]);
        assert ws[1..] == SplitWhitespace(s[n..]);
        SplitKeepsContent(s[n..]);
        SqueezeWord(s, n);
      }
    }
  }

  /** A run of whitespace never makes a word. */
  lemma {:induction false} SplitBlank(s: seq<byte>)
    requires forall i :: 0 <= i < |s| ==> IsSpace(s[i])
    ensures SplitWhitespace(s) == []
  {
    if s != [] {
      SplitBlank(s[1..]);
    }
  }

  /** The word that starts `a` does not reach into `b` when `a` contains
      whitespace. */
  lemma {:induction false} WordLenAppend(a: seq<byte>, b: seq<byte>)
    requires exists i :: 0 <= i < |a| && IsSpace(a[i])
    ensures WordLen(a + b) == WordLen(a)
  {
    if !IsSpace(a[0]) {
      assert (a + b)[1..] == a[1..] + b;
      var i :| 0 <= i < |a| && IsSpace(a[i]);
      assert IsSpace(a[1..][i - 1]);
      WordLenAppend(a[1..], b);
    }
  }

  /** Tokenizing distributes over a split point that follows whitespace. */
  lemma {:induction false} SplitAppend(a: seq<byte>, b: seq<byte>)
    requires a == [] || IsSpace(a[|a| - 1])
    ensures SplitWhitespace(a + b) == SplitWhitespace(a) + SplitWhitespace(b)
    decreases |a|
  {
    if a == [] {
      assert a + b == b;
    } else if IsSpace(a[0]) {
      assert (a + b)[1..] == a[1..] + b;
      SplitAppend(a[1..], b);
    } else {
      WordLenAppend(a, b);
      var n := WordLen(a);
      assert (a + b)[..n] == a[..n];
      assert (a + b)[n..] == a[n..] + b;
      SplitAppend(a[n..], b);
    }
  }

  /** A whole token, with nothing around it, tokenizes to itself: the
      splitter never cuts a run of non-whitespace bytes into pieces. */
  lemma SplitToken(w: Word)
    requires IsToken(w)
    ensures SplitWhitespace(w) == [w]
  {
    assert WordLen(w) == |w|;
    assert w[..|w|] == w && w[|w|..] == [];
  }

  /** One token followed by one whitespace byte tokenizes to that token. */
  lemma SplitTokenLine(w: Word, c: byte)
    requires IsToken(w) && IsSpace(c)
    ensures SplitWhitespace(w + [c]) == [w]
  {
    var s := w + [c];
    assert IsSpace(s[|w|]);
    assert forall i :: 0 <= i < |w| ==> !IsSpace(s[i]);
    assert s[..|w|] == w;
    assert s[|w|..] == [c];
    SplitBlank([c]);
  }
}
