/** The chain builder: one left-to-right pass over the words that records,
    for every two-word prefix, the words that followed it. */
module ChainBuilder {
  import opened Prefixes

  datatype Result<T> = Ok(value: T) | Err(msg: string)

  /** The message of the document-too-short failure. */
  const SHORT_DOC_ERR: string := "Expected longer document"

  /** The continuation table: each prefix maps to the words that followed
      it, in corpus order, duplicates kept. */
  type Table = map<Prefix, seq<Word>>

  /** What the builder hands to the generator: the seed prefix (the first
      two words) and the table. */
  datatype Chain = Chain(first: Prefix, table: Table)

  /** Every entry of the table has at least one follower. */
  predicate WellFormed(t: Table)
  {
    forall p :: p in t ==> t[p] != []
  }

  /** The prefix formed by the words at positions i and i + 1. */
  function PrefixAt(w: seq<Word>, i: nat): Prefix
    requires i + 1 < |w|
  {
    Prefix(w[i], w[i + 1])
  }

  /** Somewhere in `w` the two words of `p` are directly followed by `x`. */
  predicate FollowsIn(w: seq<Word>, p: Prefix, x: Word)
  {
    exists i :: 0 <= i < |w| - 2 && PrefixAt(w, i) == p && w[i + 2] == x
  }

  /** The prefixes that are followed by some word in `w`. */
  function PrefixesOf(w: seq<Word>): set<Prefix>
  {
    set i: nat | i < |w| - 2 :: PrefixAt(w, i)
  }

  /** The words that followed `p` in `w`, in corpus order. */
  function Followers(w: seq<Word>, p: Prefix): seq<Word>
  {
    if |w| < 3 then []
    else
      Followers(w[..|w| - 1], p)
      + (if PrefixAt(w, |w| - 3) == p then [w[|w| - 1]] else [])
  }

  /** The table built from `w`: an entry for each prefix followed by some
      word, listing all its followers. */
  function ChainOf(w: seq<Word>): Table
  {
    map p | p in PrefixesOf(w) :: Followers(w, p)
  }

  /** Build the chain: fail when there are fewer than two words; otherwise
      take the first two as the seed and, for each later word, append it
      to the entry of the current prefix (creating the entry when missing)
      and shift the prefix. */
  method Build(words: seq<Word>) returns (r: Result<Chain>)
    ensures r.Err? <==> |words| < 2
    ensures r.Err? ==> r.msg == SHORT_DOC_ERR
    ensures r.Ok? ==> r.value == Chain(Prefix(words[0], words[1]), ChainOf(words))
  {
    if |words| < 2 {
      return Err(SHORT_DOC_ERR);
    }
    var first := Prefix(words[0], words[1]);
    var state: Table := map[];
    var prefix := first;
    assert PrefixesOf(words[..2]) == {};
    for k := 2 to |words|
      invariant state == ChainOf(words[..k])
      invariant prefix == Prefix(words[k - 2], words[k - 1])
    {
      var word := words[k];
      assert words[..k + 1][..k] == words[..k];
      ChainOfSnoc(words[..k + 1]);
      var list := if prefix in state then state[prefix] else [];
      state := state[prefix := list + [word]];
      prefix := prefix.(a := prefix.b);
      prefix := prefix.(b := word);
    }
    assert words[..|words|] == words;
    return Ok(Chain(first, state));
  }

  /** A prefix that never occurs has no followers. */
  lemma {:induction false} FollowersAbsent(w: seq<Word>, p: Prefix)
    requires p !in PrefixesOf(w)
    ensures Followers(w, p) == []
  {
    if |w| >= 3 {
      var u := w[..|w| - 1];
      assert PrefixesOf(u) <= PrefixesOf(w) by {
        forall q | q in PrefixesOf(u) ensures q in PrefixesOf(w) {
          var i :| 0 <= i < |u| - 2 && q == PrefixAt(u, i);
          assert q == PrefixAt(w, i);
        }
      }
      FollowersAbsent(u, p);
      assert PrefixAt(w, |w| - 3) in PrefixesOf(w);
    }
  }

  /** Appending one word to the corpus appends it to the entry of the
      prefix formed by the two words before it, and changes nothing else. */
  lemma ChainOfSnoc(v: seq<Word>)
    requires |v| >= 3
    ensures var u, p, x := v[..|v| - 1], PrefixAt(v, |v| - 3), v[|v| - 1];
      ChainOf(v) == ChainOf(u)[p := (if p in ChainOf(u) then ChainOf(u)[p] else []) + [x]]
  {
    var u, p, x := v[..|v| - 1], PrefixAt(v, |v| - 3), v[|v| - 1];
    var m := ChainOf(u)[p := (if p in ChainOf(u) then ChainOf(u)[p] else []) + [x]];
    assert PrefixesOf(v) == PrefixesOf(u) + {p} by {
      forall q | q in PrefixesOf(v) ensures q in PrefixesOf(u) + {p} {
        var i :| 0 <= i < |v| - 2 && q == PrefixAt(v, i);
        if i < |v| - 3 {
          assert q == PrefixAt(u, i);
        }
      }
      forall q | q in PrefixesOf(u) ensures q in PrefixesOf(v) {
        var i :| 0 <= i < |u| - 2 && q == PrefixAt(u, i);
        assert q == PrefixAt(v, i);
      }
    }
    if p !in ChainOf(u) {
      FollowersAbsent(u, p);
    }
    assert ChainOf(v).Keys == m.Keys;
    forall q | q in m ensures ChainOf(v)[q] == m[q] {
    }
  }

  /** The words that follow `p` are exactly the words at position i + 2 for
      the positions i where `p` occurs. */
  lemma {:induction false} FollowersMembers(w: seq<Word>, p: Prefix, x: Word)
    ensures x in Followers(w, p) <==> FollowsIn(w, p, x)
  {
    if |w| >= 3 {
      var u := w[..|w| - 1];
      FollowersMembers(u, p, x);
      if x in Followers(w, p) {
        if x in Followers(u, p) {
          var i :| 0 <= i < |u| - 2 && PrefixAt(u, i) == p && u[i + 2] == x;
          assert PrefixAt(w, i) == p && w[i + 2] == x;
        } else {
          var i := |w| - 3;
          assert PrefixAt(w, i) == p && w[i + 2] == x;
        }
      }
      if FollowsIn(w, p, x) {
        var i :| 0 <= i < |w| - 2 && PrefixAt(w, i) == p && w[i + 2] == x;
        if i < |w| - 3 {
          assert PrefixAt(u, i) == p && u[i + 2] == x;
        }
      }
    }
  }

  /** Read from the front, the followers of `p` are the word after the
      first two words when those two are `p`, then the followers of `p` in
      the rest: the order of the entry is the corpus order. */
  lemma {:induction false} FollowersFront(w: seq<Word>, p: Prefix)
    requires |w| >= 3
    ensures Followers(w, p) ==
      (if PrefixAt(w, 0) == p then [w[2]] else []) + Followers(w[1..], p)
  {
    if |w| > 3 {
      var u := w[..|w| - 1];
      FollowersFront(u, p);
      assert u[1..] == w[1..][..|w| - 2];
      assert u[0] == w[0] && u[1] == w[1] && u[2] == w[2];
      var t := w[1..];
      assert t[|t| - 3] == w[|w| - 3] && t[|t| - 2] == w[|w| - 2] && t[|t| - 1] == w[|w| - 1];
    } else {
      assert |w[1..]| < 3;
    }
  }

  /** Every entry of the built table is non-empty. */
  lemma ChainOfNonEmpty(w: seq<Word>)
    ensures WellFormed(ChainOf(w))
  {
    forall p | p in ChainOf(w) ensures ChainOf(w)[p] != [] {
      var i :| 0 <= i < |w| - 2 && p == PrefixAt(w, i);
      FollowersMembers(w, p, w[i + 2]);
    }
  }

  /** The sum of the lengths of all entries of a table. */
  ghost function TotalLength(m: Table): nat
    decreases |m|
  {
    if m == map[] then 0
    else
      var p :| p in m;
      |m[p]| + TotalLength(m - {p})
  }

  /** TotalLength does not depend on which key is taken first. */
  lemma {:induction false} TotalLengthPick(m: Table, p: Prefix)
    requires p in m
    ensures TotalLength(m) == |m[p]| + TotalLength(m - {p})
    decreases |m|
  {
    var q :| q in m && TotalLength(m) == |m[q]| + TotalLength(m - {q});
    if q != p {
      assert (m - {q}) - {p} == (m - {p}) - {q};
      TotalLengthPick(m - {q}, p);
      TotalLengthPick(m - {p}, q);
    }
  }

  /** Appending one word to one entry adds one to the total length. */
  lemma TotalLengthAppend(m: Table, p: Prefix, x: Word)
    ensures TotalLength(m[p := (if p in m then m[p] else []) + [x]]) == TotalLength(m) + 1
  {
    var m' := m[p := (if p in m then m[p] else []) + [x]];
    TotalLengthPick(m', p);
    assert m' - {p} == m - {p};
    if p in m {
      TotalLengthPick(m, p);
    } else {
      assert m - {p} == m;
    }
  }

  /** Each word from the third on is recorded exactly once: the entries of
      the table built from n >= 2 words hold n - 2 words in all. */
  lemma {:induction false} ChainOfTotalLength(w: seq<Word>)
    requires |w| >= 2
    ensures TotalLength(ChainOf(w)) == |w| - 2
  {
    if |w| == 2 {
      assert PrefixesOf(w) == {};
      assert ChainOf(w) == map[];
    } else {
      var u := w[..|w| - 1];
      ChainOfTotalLength(u);
      ChainOfSnoc(w);
      TotalLengthAppend(ChainOf(u), PrefixAt(w, |w| - 3), w[|w| - 1]);
    }
  }
}
