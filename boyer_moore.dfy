/** `BoyerMooreMajority` (boyer_moore.py:7-33): the streaming majority vote.
    The object keeps a `guess` and a `counter`; each added element either
    becomes the new guess (counter at zero), raises the counter (equal to
    the guess) or lowers it (different). */
module BoyerMoore {
  import opened Wrappers

  /** The number of occurrences of `x` in `s`. */
  function Count<T(==)>(s: seq<T>, x: T): (n: nat)
    ensures n <= |s|
  {
    if s == [] then 0
    else Count(s[..|s| - 1], x) + (if s[|s| - 1] == x then 1 else 0)
  }

  lemma {:induction false} CountAppend<T>(a: seq<T>, b: seq<T>, x: T)
    ensures Count(a + b, x) == Count(a, x) + Count(b, x)
  {
    if b != [] {
      CountAppend(a, b[..|b| - 1], x);
      assert (a + b)[..|a + b| - 1] == a + b[..|b| - 1];
    } else {
      assert a + b == a;
    }
  }

  /** Two different values together occur at most once per position. */
  lemma {:induction false} CountTwo<T>(s: seq<T>, x: T, y: T)
    requires x != y
    ensures Count(s, x) + Count(s, y) <= |s|
  {
    if s != [] {
      CountTwo(s[..|s| - 1], x, y);
    }
  }

  /** A segment in which `g` makes up exactly half has no majority: every
      value occurs in at most half of it. */
  lemma {:induction false} HalfHasNoMajority<T>(seg: seq<T>, g: T, x: T)
    requires 2 * Count(seg, g) == |seg|
    ensures 2 * Count(seg, x) <= |seg|
  {
    if x != g {
      CountTwo(seg, x, g);
    }
  }

  /** When the counter is back at zero, the guess makes up exactly half of
      its run, so no value is a majority of everything added so far. */
  lemma {:induction false} NoMajorityAtZero<T>(s: seq<T>, start: nat, guess: Option<T>)
    requires start <= |s|
    requires forall x :: 2 * Count(s[..start], x) <= start
    requires guess.Some? ==> 2 * Count(s[start..], guess.value) == |s| - start
    requires guess.None? ==> s == []
    ensures forall x :: 2 * Count(s, x) <= |s|
  {
    forall x ensures 2 * Count(s, x) <= |s| {
      assert s == s[..start] + s[start..];
      CountAppend(s[..start], s[start..], x);
      if guess.Some? {
        HalfHasNoMajority(s[start..], guess.value, x);
      }
    }
  }

  /** Adding an element leaves the part before `start` alone and extends
      the current run by one element. */
  lemma {:induction false} RunStep<T>(s: seq<T>, start: nat, e: T, g: T)
    requires start <= |s|
    ensures (s + [e])[..start] == s[..start]
    ensures Count((s + [e])[start..], g) == Count(s[start..], g) + (if e == g then 1 else 0)
  {
    assert (s + [e])[start..] == s[start..] + [e];
    CountAppend(s[start..], [e], g);
    assert [e][..0] == [];
  }

  /** The state after the elements `added`: `start` is where the current
      guess's run began; before it no value is a majority, and from it on
      the guess leads every other value by `counter`. */
  ghost predicate Tracks<T(!new)>(added: seq<T>, start: nat, guess: Option<T>, counter: int) {
    && 0 <= counter <= |added|
    && start <= |added|
    && (added == [] ==> guess == None && counter == 0 && start == 0)
    && (added != [] ==> guess.Some? && guess.value in added)
    && (forall x :: 2 * Count(added[..start], x) <= start)
    && (guess.Some? ==> 2 * Count(added[start..], guess.value) == |added| - start + counter)
  }

  class BoyerMooreMajority<T(==, !new)> {
    var guess: Option<T>
    var counter: int
    /** The elements added so far, in order. */
    ghost var added: seq<T>
    /** Where the current guess's run began: before it, no value is a
        majority; from it on, the guess leads every other value by `counter`. */
    ghost var start: nat

    ghost predicate Valid()
      reads this
    {
      Tracks(added, start, guess, counter)
    }

    /** `__init__`: no guess and a zero counter. */
    constructor ()
      ensures Valid() && guess == None && counter == 0 && added == []
    {
      guess := None;
      counter := 0;
      added := [];
      start := 0;
    }

    /** `add_next_element`: with the counter at zero the element becomes the
        guess and the counter 1; otherwise the counter rises for an element
        equal to the guess and falls for any other. */
    method AddNextElement(element: T)
      requires Valid()
      modifies this
      ensures Valid() && added == old(added) + [element]
      ensures old(counter) == 0 ==> guess == Some(element) && counter == 1
      ensures old(counter) != 0 && old(guess) == Some(element) ==> guess == old(guess) && counter == old(counter) + 1
      ensures old(counter) != 0 && old(guess) != Some(element) ==> guess == old(guess) && counter == old(counter) - 1
    {
      ghost var before := added;
      if counter == 0 {
        NoMajorityAtZero(before, start, guess);
        guess := Some(element);
        start := |before|;
      }
      if Some(element) == guess {
        counter := counter + 1;
      } else {
        counter := counter - 1;
      }
      added := before + [element];
      RunStep(before, start, element, guess.value);
    }

    /** `get_majority`: the current guess, without changing anything. If some
        value makes up more than half of the elements added, it is the guess. */
    method GetMajority() returns (majority: Option<T>)
      requires Valid()
      ensures majority == guess
      ensures forall x :: 2 * Count(added, x) > |added| ==> majority == Some(x)
    {
      majority := guess;
      forall x | 2 * Count(added, x) > |added| ensures majority == Some(x) {
        assert added == added[..start] + added[start..];
        CountAppend(added[..start], added[start..], x);
        if guess.value != x {
          CountTwo(added[start..], x, guess.value);
        }
      }
    }
  }

  lemma {:induction false} SampleCount()
    ensures Count([2, 2, 2, 4, 5, 5, 2, 2, 3], 2) == 5
  {
    var l := [2, 2, 2, 4, 5, 5, 2, 2, 3];
    forall k | 0 <= k < |l| ensures l[..k + 1][..k] == l[..k] {}
    assert l[..0] == [];
    assert Count(l[..1], 2) == 1;
    assert Count(l[..2], 2) == 2;
    assert Count(l[..3], 2) == 3;
    assert Count(l[..4], 2) == 3;
    assert Count(l[..5], 2) == 3;
    assert Count(l[..6], 2) == 3;
    assert Count(l[..7], 2) == 4;
    assert Count(l[..8], 2) == 5;
    assert Count(l[..9], 2) == 5;
    assert l[..9] == l;
  }

  /** The client's loop `for elem in l: b.add_next_element(elem)`. */
  method AddAll<T(==, !new)>(b: BoyerMooreMajority<T>, l: seq<T>)
    requires b.Valid()
    modifies b
    ensures b.Valid() && b.added == old(b.added) + l
  {
    ghost var before := b.added;
    for i := 0 to |l|
      invariant b.Valid() && b.added == before + l[..i]
    {
      b.AddNextElement(l[i]);
      assert before + l[..i + 1] == (before + l[..i]) + [l[i]] by {
        assert l[..i + 1] == l[..i] + [l[i]];
      }
    }
    assert l[..|l|] == l;
  }

  /** The commented-out client of boyer_moore.py:36-42: 2 makes up five of
      the nine elements, so it is reported. */
  method SampleUsage() returns (m: Option<int>)
    ensures m == Some(2)
  {
    var l := [2, 2, 2, 4, 5, 5, 2, 2, 3];
    var b := new BoyerMooreMajority<int>();
    AddAll(b, l);
    assert b.added == l;
    SampleCount();
    m := b.GetMajority();
  }
}
