/** The chain generator: emit the seed prefix, then walk the table, each
    step emitting a randomly chosen follower of the current prefix. */
module ChainGenerator {
  import opened Prefixes
  import opened ChainBuilder

  /** The cap on the number of words written. */
  const NWORDS: nat := 10000

  /** The number of words in a prefix. */
  const NPREFIX: nat := 2

  /** The number of walk steps after the seed. */
  const STEPS: nat := NWORDS - NPREFIX

  /** The byte that ends each output line. */
  const NEWLINE: byte := 10

  /** The follower picked for `p` by the raw random value `r`: the index
      `r % len` is in range for a non-empty entry, so the pick is always one
      of the recorded followers. */
  function Pick(t: Table, p: Prefix, r: nat): (x: Word)
    requires p in t && t[p] != []
    ensures x in t[p]
  {
    t[p][r % |t[p]|]
  }

  /** The word at position i of `out` is the follower that the step
      writing it picked for the two words before it. */
  predicate PickedAt(t: Table, out: seq<Word>, roll: nat -> nat, i: nat)
    requires 2 <= i < |out|
  {
    var p := Prefix(out[i - 2], out[i - 1]);
    p in t && t[p] != [] && out[i] == Pick(t, p, roll(i - 2))
  }

  /** The state of a walk: the words written so far, the current prefix,
      and whether the walk has stopped at a prefix without an entry. */
  datatype Walk = Walk(out: seq<Word>, prefix: Prefix, stopped: bool)

  /** One step of the walk with raw random value `r`. */
  function Step(t: Table, w: Walk, r: nat): Walk
    requires WellFormed(t)
  {
    if w.stopped then w
    else if w.prefix in t then
      var x := Pick(t, w.prefix, r);
      Walk(w.out + [x], Prefix(w.prefix.b, x), false)
    else w.(stopped := true)
  }

  /** The walk after `k` steps, where step i draws the value `roll(i)`. */
  function WalkAfter(t: Table, first: Prefix, roll: nat -> nat, k: nat): Walk
    requires WellFormed(t)
  {
    if k == 0 then Walk([first.a, first.b], first, false)
    else Step(t, WalkAfter(t, first, roll, k - 1), roll(k - 1))
  }

  /** The words generated from `first`. */
  function Generated(t: Table, first: Prefix, roll: nat -> nat): seq<Word>
    requires WellFormed(t)
  {
    WalkAfter(t, first, roll, STEPS).out
  }

  /** The output text: each word followed by a newline. */
  function Lines(ws: seq<Word>): seq<byte>
  {
    if ws == [] then [] else Lines(ws[..|ws| - 1]) + ws[|ws| - 1] + [NEWLINE]
  }

  /** Generate the output text: write the seed words, then for at most
      NWORDS - NPREFIX steps look up the current prefix, stop if it has no
      entry, otherwise write the follower at index roll(i) modulo the
      entry's length and shift the prefix. */
  method Generate(t: Table, first: Prefix, roll: nat -> nat) returns (s: seq<byte>)
    requires WellFormed(t)
    ensures s == Lines(Generated(t, first, roll))
  {
    var prefix := first;
    s := first.a + [NEWLINE] + first.b + [NEWLINE];
    assert [first.a, first.b][..1] == [first.a] && [first.a][..0] == [];
    assert Lines([first.a]) == first.a + [NEWLINE];
    assert s == Lines([first.a]) + first.b + [NEWLINE];
    for i := 0 to STEPS
      invariant WalkAfter(t, first, roll, i).prefix == prefix
      invariant !WalkAfter(t, first, roll, i).stopped
      invariant s == Lines(WalkAfter(t, first, roll, i).out)
    {
      ghost var walk := WalkAfter(t, first, roll, i);
      if prefix in t {
        var suf := t[prefix];
        var ind := roll(i) % |suf|;
        var w := suf[ind];
        assert WalkAfter(t, first, roll, i + 1) == Walk(walk.out + [w], Prefix(prefix.b, w), false);
        assert (walk.out + [w])[..|walk.out|] == walk.out;
        s := s + w + [NEWLINE];
        prefix := prefix.(a := prefix.b);
        prefix := prefix.(b := w);
      } else {
        assert WalkAfter(t, first, roll, i + 1) == walk.(stopped := true);
        StoppedStays(t, first, roll, i + 1, STEPS);
        break;
      }
    }
  }

  /** Once the walk has stopped, it does not change. */
  lemma {:induction false} StoppedStays(t: Table, first: Prefix, roll: nat -> nat, i: nat, k: nat)
    requires WellFormed(t)
    requires i <= k
    requires WalkAfter(t, first, roll, i).stopped
    ensures WalkAfter(t, first, roll, k) == WalkAfter(t, first, roll, i)
    decreases k - i
  {
    if i < k {
      StoppedStays(t, first, roll, i, k - 1);
    }
  }

  /** What holds of the walk after any number of steps: it starts with the
      seed, the current prefix is its last two words, every word from the
      third on is the follower that step picked for the two words before
      it, it grows by one word per step until it stops, and it stops only
      at a prefix without an entry. */
  lemma {:induction false} WalkInvariant(t: Table, first: Prefix, roll: nat -> nat, k: nat)
    requires WellFormed(t)
    ensures var w := WalkAfter(t, first, roll, k);
      && 2 <= |w.out| <= k + 2
      && w.out[0] == first.a && w.out[1] == first.b
      && w.prefix == Prefix(w.out[|w.out| - 2], w.out[|w.out| - 1])
      && (!w.stopped ==> |w.out| == k + 2)
      && (w.stopped ==> w.prefix !in t)
      && forall i :: 2 <= i < |w.out| ==> PickedAt(t, w.out, roll, i)
  {
    if k > 0 {
      WalkInvariant(t, first, roll, k - 1);
      var v := WalkAfter(t, first, roll, k - 1);
      var w := WalkAfter(t, first, roll, k);
      if !v.stopped && v.prefix in t {
        forall i | 2 <= i < |w.out| ensures PickedAt(t, w.out, roll, i) {
          if i < |v.out| {
            assert w.out[i] == v.out[i] && w.out[i - 1] == v.out[i - 1] && w.out[i - 2] == v.out[i - 2];
            assert PickedAt(t, v.out, roll, i);
          }
        }
      }
    }
  }

  /** The generated words begin with the seed words, never number more
      than NWORDS, and each word from the third on is the follower picked
      by that step's random value among the recorded followers of the two
      words before it. */
  lemma GeneratedTrace(t: Table, first: Prefix, roll: nat -> nat)
    requires WellFormed(t)
    ensures var out := Generated(t, first, roll);
      && 2 <= |out| <= NWORDS
      && out[0] == first.a && out[1] == first.b
      && forall j :: 0 <= j < |out| - 2 ==>
           && Prefix(out[j], out[j + 1]) in t
           && out[j + 2] in t[Prefix(out[j], out[j + 1])]
           && out[j + 2] == Pick(t, Prefix(out[j], out[j + 1]), roll(j))
  {
    WalkInvariant(t, first, roll, STEPS);
    var out := Generated(t, first, roll);
    assert out == WalkAfter(t, first, roll, STEPS).out;
    forall j | 0 <= j < |out| - 2
      ensures && Prefix(out[j], out[j + 1]) in t
              && out[j + 2] in t[Prefix(out[j], out[j + 1])]
              && out[j + 2] == Pick(t, Prefix(out[j], out[j + 1]), roll(j))
    {
      assert PickedAt(t, out, roll, j + 2);
      var p := Prefix(out[j], out[j + 1]);
      assert out[j + 2] == Pick(t, p, roll(j));
    }
  }

  /** Generation stops early only at a prefix without an entry: fewer than
      NWORDS words means the last two words form a prefix the table does
      not hold (while every earlier prefix had an entry, by GeneratedTrace). */
  lemma GeneratedStops(t: Table, first: Prefix, roll: nat -> nat)
    requires WellFormed(t)
    ensures var out := Generated(t, first, roll);
      && 2 <= |out|
      && (|out| < NWORDS ==> Prefix(out[|out| - 2], out[|out| - 1]) !in t)
  {
    WalkInvariant(t, first, roll, STEPS);
  }

  /** With an empty table the output is exactly the seed words. */
  lemma {:induction false} GeneratedFromEmpty(first: Prefix, roll: nat -> nat, k: nat)
    ensures WalkAfter(map[], first, roll, k).out == [first.a, first.b]
  {
    if k > 0 {
      GeneratedFromEmpty(first, roll, k - 1);
    }
  }
}
