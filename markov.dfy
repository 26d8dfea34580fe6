/** The whole program: tokenize the corpus, build the chain, generate the
    output text. */
module Markov {
  import opened Prefixes
  import opened Tokenizer
  import opened ChainBuilder
  import opened ChainGenerator

  /** Run the generator on the corpus `text`, with `roll(i)` the raw random
      value drawn at generation step i. Fails with the document-too-short
      message when the corpus has fewer than two words. */
  method Run(text: seq<byte>, roll: nat -> nat) returns (r: Result<seq<byte>>)
    ensures var ws := SplitWhitespace(text);
      && (r.Err? <==> |ws| < 2)
      && (r.Err? ==> r.msg == SHORT_DOC_ERR)
      && (r.Ok? ==> WellFormed(ChainOf(ws))
                    && r.value == Lines(Generated(ChainOf(ws), Prefix(ws[0], ws[1]), roll)))
  {
    var words := SplitWhitespace(text);
    var built := Build(words);
    if built.Err? {
      return Err(built.msg);
    }
    ChainOfNonEmpty(words);
    var s := Generate(built.value.table, built.value.first, roll);
    return Ok(s);
  }

  /** Every three consecutive output words occur as three consecutive words
      of the corpus, and the output starts with the corpus's first two
      words and holds at most NWORDS words. */
  lemma OutputFollowsCorpus(ws: seq<Word>, roll: nat -> nat)
    requires |ws| >= 2
    ensures WellFormed(ChainOf(ws))
    ensures var out := Generated(ChainOf(ws), Prefix(ws[0], ws[1]), roll);
      && 2 <= |out| <= NWORDS
      && out[0] == ws[0] && out[1] == ws[1]
      && forall j :: 0 <= j < |out| - 2 ==> FollowsIn(ws, Prefix(out[j], out[j + 1]), out[j + 2])
  {
    ChainOfNonEmpty(ws);
    var t := ChainOf(ws);
    var out := Generated(t, Prefix(ws[0], ws[1]), roll);
    GeneratedTrace(t, Prefix(ws[0], ws[1]), roll);
    forall j | 0 <= j < |out| - 2
      ensures FollowsIn(ws, Prefix(out[j], out[j + 1]), out[j + 2])
    {
      var p := Prefix(out[j], out[j + 1]);
      assert p in t && out[j + 2] in t[p];
      assert t[p] == Followers(ws, p);
      FollowersMembers(ws, p, out[j + 2]);
    }
  }

  /** Every output word is a word of the corpus. */
  lemma OutputWordsFromCorpus(ws: seq<Word>, roll: nat -> nat)
    requires |ws| >= 2
    ensures WellFormed(ChainOf(ws))
    ensures forall x :: x in Generated(ChainOf(ws), Prefix(ws[0], ws[1]), roll) ==> x in ws
  {
    OutputFollowsCorpus(ws, roll);
    var out := Generated(ChainOf(ws), Prefix(ws[0], ws[1]), roll);
    forall k | 0 <= k < |out| ensures out[k] in ws {
      if k >= 2 {
        assert FollowsIn(ws, Prefix(out[k - 2], out[k - 1]), out[k]);
        var i :| 0 <= i < |ws| - 2 && PrefixAt(ws, i) == Prefix(out[k - 2], out[k - 1]) && ws[i + 2] == out[k];
      }
    }
  }

  /** A corpus of exactly two words builds an empty table, and the output
      is those two words. */
  lemma TwoWordCorpus(ws: seq<Word>, roll: nat -> nat)
    requires |ws| == 2
    ensures ChainOf(ws) == map[]
    ensures WellFormed(ChainOf(ws)) && Generated(ChainOf(ws), Prefix(ws[0], ws[1]), roll) == ws
  {
    assert PrefixesOf(ws) == {};
    GeneratedFromEmpty(Prefix(ws[0], ws[1]), roll, STEPS);
  }

  /** Output text is one token per line: tokenizing it gives back the words. */
  lemma {:induction false} LinesRetokenize(ws: seq<Word>)
    requires forall k :: 0 <= k < |ws| ==> IsToken(ws[k])
    ensures SplitWhitespace(Lines(ws)) == ws
  {
    if ws != [] {
      var init, last := ws[..|ws| - 1], ws[|ws| - 1];
      LinesRetokenize(init);
      var a := Lines(init);
      assert Lines(ws) == a + (last + [NEWLINE]);
      if a != [] {
        assert a[|a| - 1] == NEWLINE;
      }
      SplitAppend(a, last + [NEWLINE]);
      SplitTokenLine(last, NEWLINE);
      assert init + [last] == ws;
    }
  }

  /** The text the program writes tokenizes back to the generated words. */
  lemma OutputRetokenizes(text: seq<byte>, roll: nat -> nat)
    requires |SplitWhitespace(text)| >= 2
    ensures var ws := SplitWhitespace(text);
      && WellFormed(ChainOf(ws))
      && var out := Generated(ChainOf(ws), Prefix(ws[0], ws[1]), roll);
         SplitWhitespace(Lines(out)) == out
  {
    var ws := SplitWhitespace(text);
    OutputWordsFromCorpus(ws, roll);
    var out := Generated(ChainOf(ws), Prefix(ws[0], ws[1]), roll);
    forall k | 0 <= k < |out| ensures IsToken(out[k]) {
      assert out[k] in ws;
    }
    LinesRetokenize(out);
  }

  /** The corpus "the quick fox the quick brown the quick fox", over any
      four words standing for the, quick, fox and brown. */
  function QuickFox(the: Word, quick: Word, fox: Word, brown: Word): seq<Word>
  {
    [the, quick, fox, the, quick, brown, the, quick, fox]
  }

  predicate Distinct(the: Word, quick: Word, fox: Word, brown: Word)
  {
    && the != quick && the != fox && the != brown
    && quick != fox && quick != brown && fox != brown
  }

  /** The table expected after the first k words of QuickFox. */
  function QuickFoxSoFar(the: Word, quick: Word, fox: Word, brown: Word, k: nat): Table
  {
    var tq, qf, ft, qb, bt := Prefix(the, quick), Prefix(quick, fox), Prefix(fox, the), Prefix(quick, brown), Prefix(brown, the);
    if k <= 2 then map[]
    else if k == 3 then map[tq := [fox]]
    else if k == 4 then map[tq := [fox], qf := [the]]
    else if k == 5 then map[tq := [fox], qf := [the], ft := [quick]]
    else if k == 6 then map[tq := [fox, brown], qf := [the], ft := [quick]]
    else if k == 7 then map[tq := [fox, brown], qf := [the], ft := [quick], qb := [the]]
    else if k == 8 then map[tq := [fox, brown], qf := [the], ft := [quick], qb := [the], bt := [quick]]
    else map[tq := [fox, brown, fox], qf := [the], ft := [quick], qb := [the], bt := [quick]]
  }

  /** Each expected table is the one before it with word k - 1 pushed onto
      the entry of the prefix before it. */
  lemma QuickFoxSoFarStep(the: Word, quick: Word, fox: Word, brown: Word, k: nat)
    requires Distinct(the, quick, fox, brown)
    requires 3 <= k <= 9
    ensures var w, before := QuickFox(the, quick, fox, brown), QuickFoxSoFar(the, quick, fox, brown, k - 1);
      var p := PrefixAt(w, k - 3);
      QuickFoxSoFar(the, quick, fox, brown, k) == before[p := (if p in before then before[p] else []) + [w[k - 1]]]
  {
    var none: seq<Word> := [];
    if k == 3 {
      assert none + [fox] == [fox];
    } else if k == 4 {
      assert none + [the] == [the];
    } else if k == 5 {
      assert none + [quick] == [quick];
    } else if k == 6 {
      assert [fox] + [brown] == [fox, brown];
    } else if k == 7 {
      assert none + [the] == [the];
    } else if k == 8 {
      assert none + [quick] == [quick];
    } else {
      assert [fox, brown] + [fox] == [fox, brown, fox];
    }
  }

  /** The table of the first k words of QuickFox is the expected one. */
  lemma {:induction false} QuickFoxPrefixes(the: Word, quick: Word, fox: Word, brown: Word, k: nat)
    requires Distinct(the, quick, fox, brown)
    requires 2 <= k <= 9
    ensures ChainOf(QuickFox(the, quick, fox, brown)[..k]) == QuickFoxSoFar(the, quick, fox, brown, k)
  {
    var w := QuickFox(the, quick, fox, brown);
    if k == 2 {
      assert PrefixesOf(w[..2]) == {};
    } else {
      QuickFoxPrefixes(the, quick, fox, brown, k - 1);
      QuickFoxSoFarStep(the, quick, fox, brown, k);
      SnocStep(w, k);
    }
  }

  /** The table built from "the quick fox the quick brown the quick fox",
      for any four distinct words standing for the, quick, fox and brown:
      the entry of ("the", "quick") lists fox, brown, fox in corpus order. */
  lemma QuickFoxTable(the: Word, quick: Word, fox: Word, brown: Word)
    requires Distinct(the, quick, fox, brown)
    ensures ChainOf(QuickFox(the, quick, fox, brown)) ==
      map[Prefix(the, quick) := [fox, brown, fox],
          Prefix(quick, fox) := [the],
          Prefix(fox, the) := [quick],
          Prefix(quick, brown) := [the],
          Prefix(brown, the) := [quick]]
  {
    var w := QuickFox(the, quick, fox, brown);
    QuickFoxPrefixes(the, quick, fox, brown, 9);
    assert w[..9] == w;
  }

  /** ChainOfSnoc for the first k words of `w`. */
  lemma SnocStep(w: seq<Word>, k: nat)
    requires 3 <= k <= |w|
    ensures ChainOf(w[..k]) == ChainOf(w[..k - 1])[PrefixAt(w, k - 3) :=
      (if PrefixAt(w, k - 3) in ChainOf(w[..k - 1]) then ChainOf(w[..k - 1])[PrefixAt(w, k - 3)] else []) + [w[k - 1]]]
  {
    assert w[..k][..k - 1] == w[..k - 1];
    ChainOfSnoc(w[..k]);
  }
}
