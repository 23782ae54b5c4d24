/**
 * Lists kept free of duplicates by the "push unless already present" idiom
 * (`if (list.indexOf(x) === -1) list.push(x)`), and the order in which such
 * a list holds its elements: the order in which each was first seen.
 */
module FirstSeen {

  /** No value occurs twice. */
  predicate NoDuplicates<T(==)>(s: seq<T>)
  {
    forall i, j :: 0 <= i < j < |s| ==> s[i] != s[j]
  }

  /** One step of the idiom: append `x` unless `acc` already holds it. */
  function AddNew<T(==)>(acc: seq<T>, x: T): seq<T>
  {
    if x in acc then acc else acc + [x]
  }

  /**
   * The guarded push only ever appends, always leaves `x` in the list, adds
   * nothing but `x`, and never introduces a duplicate. This documents one
   * step on its own; the proofs rely on the contract of `Dedup` instead.
   */
  lemma AddNewGuard<T>(acc: seq<T>, x: T)
    ensures acc <= AddNew(acc, x) && x in AddNew(acc, x)
    ensures forall y :: y in AddNew(acc, x) <==> y in acc || y == x
    ensures NoDuplicates(acc) ==> NoDuplicates(AddNew(acc, x))
  {
  }

  /** The list the idiom builds when it is fed `xs` in order, starting empty. */
  function Dedup<T(==,!new)>(xs: seq<T>): (d: seq<T>)
    ensures NoDuplicates(d)
    ensures forall x :: x in d <==> x in xs
    ensures |d| <= |xs|
  {
    if |xs| == 0 then []
    else AddNew(Dedup(xs[..|xs| - 1]), xs[|xs| - 1])
  }

  /** Where `x` first occurs in `s`: `s.indexOf(x)`. */
  function FirstIndex<T(==)>(s: seq<T>, x: T): (i: nat)
    requires x in s
    ensures i < |s| && s[i] == x && x !in s[..i]
  {
    if s[0] == x then 0
    else
      assert x in s[1..] by { assert s == [s[0]] + s[1..]; }
      var j := FirstIndex(s[1..], x);
      assert s[..j + 1] == [s[0]] + s[1..][..j];
      1 + j
  }

  /** `FirstIndex` is at most any position holding the value. */
  lemma FirstIndexAtMost<T>(s: seq<T>, x: T, at: nat)
    requires at < |s| && s[at] == x
    ensures FirstIndex(s, x) <= at
  {
  }

  /** In a list without duplicates, the first occurrence of `s[i]` is `i`. */
  lemma FirstIndexNoDuplicates<T>(s: seq<T>, i: nat)
    requires NoDuplicates(s) && i < |s|
    ensures FirstIndex(s, s[i]) == i
  {
    FirstIndexAtMost(s, s[i], i);
  }

  /** Appending an element leaves the first occurrence of what was there unchanged. */
  lemma FirstIndexSnoc<T>(s: seq<T>, z: T, x: T)
    requires x in s
    ensures FirstIndex(s + [z], x) == FirstIndex(s, x)
  {
    var f := FirstIndex(s, x);
    FirstIndexAtMost(s + [z], x, f);
    var g := FirstIndex(s + [z], x);
    FirstIndexAtMost(s, x, g);
  }

  /**
   * The idiom keeps first-seen order: of two values fed to it, the one that
   * was seen first stands first in the list it builds, and conversely.
   */
  lemma {:induction false} DedupFirstSeenOrder<T(!new)>(xs: seq<T>, x: T, y: T)
    requires x in xs && y in xs
    ensures FirstIndex(Dedup(xs), x) < FirstIndex(Dedup(xs), y)
        <==> FirstIndex(xs, x) < FirstIndex(xs, y)
    decreases |xs|
  {
    var ys, z := xs[..|xs| - 1], xs[|xs| - 1];
    assert xs == ys + [z];
    var d := Dedup(ys);
    if x in ys && y in ys {
      DedupFirstSeenOrder(ys, x, y);
      FirstIndexSnoc(ys, z, x);
      FirstIndexSnoc(ys, z, y);
      if z !in d {
        FirstIndexSnoc(d, z, x);
        FirstIndexSnoc(d, z, y);
      }
    } else if x !in ys {
      assert x == z && z !in d;
      FirstIndexAtMost(xs, x, |ys|);
      FirstIndexAtMost(d + [z], x, |d|);
      if y in ys {
        FirstIndexSnoc(ys, z, y);
        FirstIndexSnoc(d, z, y);
      }
    } else {
      assert y == z && z !in d;
      FirstIndexAtMost(xs, y, |ys|);
      FirstIndexAtMost(d + [z], y, |d|);
      FirstIndexSnoc(ys, z, x);
      FirstIndexSnoc(d, z, x);
    }
  }

  /** The first value fed to the idiom stands first in the list it builds. */
  lemma {:induction false} DedupHead<T(!new)>(xs: seq<T>)
    requires |xs| > 0
    ensures |Dedup(xs)| > 0 && Dedup(xs)[0] == xs[0]
  {
    if |xs| > 1 {
      var init := xs[..|xs| - 1];
      DedupHead(init);
    }
  }
}
