/**
 * `/`-separated path strings as the `mkdir` helper handles them:
 * JavaScript's `split('/')` and `join('/')` over a sequence of segment
 * strings, the cumulative prefixes `segs.slice(0, k).join('/')`, and an
 * independent, string-level description of those prefixes.
 */
module PathSegments {

  /** The separator the helper splits and joins on. */
  const Sep: char := '/'

  /**
   * `s.split('/')`: the pieces between separators, in order. Like
   * JavaScript's, it never returns an empty list (`"".split('/')` is `[""]`)
   * and keeps empty pieces (`"/a".split('/')` is `["", "a"]`).
   */
  function Split(s: string): (segs: seq<string>)
    ensures |segs| >= 1
    ensures forall i :: 0 <= i < |segs| ==> Sep !in segs[i]
    decreases |s|
  {
    if |s| == 0 then [""]
    else if s[0] == Sep then [""] + Split(s[1..])
    else
      var rest := Split(s[1..]);
      [[s[0]] + rest[0]] + rest[1..]
  }

  /** `segs.join('/')`: the segments with one separator between neighbours. */
  function Join(segs: seq<string>): (s: string)
  {
    if |segs| == 0 then ""
    else if |segs| == 1 then segs[0]
    else segs[0] + [Sep] + Join(segs[1..])
  }

  /**
   * A join starts with its first segment, and when there is more than one
   * segment a separator follows it. This documents the `join('/')` step on
   * its own; the proofs below rely on `JoinSplit` and `SplitJoin` instead.
   */
  lemma JoinFirstSegment(segs: seq<string>)
    requires |segs| >= 1
    ensures segs[0] <= Join(segs)
    ensures |segs| >= 2 ==> |Join(segs)| > |segs[0]| && Join(segs)[|segs[0]|] == Sep
  {
  }

  /** Splitting a path and joining the pieces gives the path back. */
  lemma {:induction false} JoinSplit(s: string)
    ensures Join(Split(s)) == s
    decreases |s|
  {
    if |s| == 0 {
    } else if s[0] == Sep {
      var rest := Split(s[1..]);
      JoinSplit(s[1..]);
      assert ([""] + rest)[1..] == rest;
      assert s == [Sep] + s[1..];
    } else {
      var rest := Split(s[1..]);
      JoinSplit(s[1..]);
      JoinConsChar(s[0], rest[0], rest[1..]);
      assert rest == [rest[0]] + rest[1..];
      assert s == [s[0]] + s[1..];
    }
  }

  /** Joining a segment in front of a non-empty list puts it and a separator in front. */
  lemma JoinCons(x: string, segs: seq<string>)
    requires |segs| >= 1
    ensures Join([x] + segs) == x + [Sep] + Join(segs)
  {
    assert ([x] + segs)[1..] == segs;
  }

  /** Putting a character in front of the first segment puts it in front of the joined path. */
  lemma JoinConsChar(c: char, x: string, segs: seq<string>)
    ensures Join([[c] + x] + segs) == [c] + Join([x] + segs)
  {
    if |segs| == 0 {
      assert [[c] + x] + segs == [[c] + x];
      assert [x] + segs == [x];
    } else {
      var tail := Join(segs);
      JoinCons([c] + x, segs);
      JoinCons(x, segs);
      assert ([c] + x) + [Sep] + tail == [c] + (x + [Sep] + tail);
    }
  }

  /** A piece without separators splits into itself alone. */
  lemma {:induction false} SplitSegment(x: string)
    requires Sep !in x
    ensures Split(x) == [x]
    decreases |x|
  {
    if |x| > 0 {
      SplitSegment(x[1..]);
      assert x == [x[0]] + x[1..];
    }
  }

  /** Splitting `x + "/" + t` gives `x` followed by the pieces of `t`. */
  lemma {:induction false} SplitAfterSegment(x: string, t: string)
    requires Sep !in x
    ensures Split(x + [Sep] + t) == [x] + Split(t)
    decreases |x|
  {
    var s := x + [Sep] + t;
    if |x| == 0 {
      assert s[0] == Sep && s[1..] == t;
    } else {
      assert s[0] == x[0] && s[1..] == x[1..] + [Sep] + t;
      SplitAfterSegment(x[1..], t);
      assert x == [x[0]] + x[1..];
    }
  }

  /** Joining separator-free segments and splitting again gives the segments back. */
  lemma {:induction false} SplitJoin(segs: seq<string>)
    requires |segs| >= 1
    requires forall i :: 0 <= i < |segs| ==> Sep !in segs[i]
    ensures Split(Join(segs)) == segs
  {
    if |segs| == 1 {
      SplitSegment(segs[0]);
    } else {
      SplitJoin(segs[1..]);
      SplitAfterSegment(segs[0], Join(segs[1..]));
      assert segs == [segs[0]] + segs[1..];
    }
  }

  /** Joining one more segment appends a separator and that segment. */
  lemma {:induction false} JoinSnoc(segs: seq<string>, x: string)
    requires |segs| >= 1
    ensures Join(segs + [x]) == Join(segs) + [Sep] + x
  {
    if |segs| > 1 {
      assert (segs + [x])[1..] == segs[1..] + [x];
      JoinSnoc(segs[1..], x);
    }
  }

  /**
   * The cumulative prefixes of a target, `segs.slice(0, k + 1).join('/')`
   * for every index `k` of `segs = target.split('/')`: the target's
   * ancestor chain, from the outermost directory down to the target itself.
   */
  function Ancestors(target: string): (chain: seq<string>)
    ensures |chain| == |Split(target)|
    ensures chain[|chain| - 1] == target
  {
    var segs := Split(target);
    JoinSplit(target);
    assert segs[..|segs|] == segs;
    seq(|segs|, k requires 0 <= k < |segs| => Join(segs[..k + 1]))
  }

  /**
   * `p` names `target` or one of its ancestors: `p` is a prefix of `target`
   * that ends where `target` ends or right before a separator.
   */
  predicate IsAncestorPath(p: string, target: string)
  {
    p <= target && (|p| == |target| || target[|p|] == Sep)
  }

  /** Each ancestor is the previous one plus a separator and one more segment. */
  lemma AncestorsGrow(target: string, k: nat)
    requires k + 1 < |Ancestors(target)|
    ensures Ancestors(target)[k + 1] == Ancestors(target)[k] + [Sep] + Split(target)[k + 1]
  {
    var segs := Split(target);
    assert segs[..k + 2] == segs[..k + 1] + [segs[k + 1]];
    JoinSnoc(segs[..k + 1], segs[k + 1]);
  }

  /** Later entries of the ancestor chain are strictly longer. */
  lemma {:induction false} AncestorsLengthIncreasing(target: string, j: nat, k: nat)
    requires j < k < |Ancestors(target)|
    ensures |Ancestors(target)[j]| < |Ancestors(target)[k]|
    decreases k - j
  {
    AncestorsGrow(target, k - 1);
    if j < k - 1 {
      AncestorsLengthIncreasing(target, j, k - 1);
    }
  }

  /** A target starting with a separator: first `""`, then "/" before each ancestor of the rest. */
  lemma AncestorsAfterSep(target: string, k: nat)
    requires |target| > 0 && target[0] == Sep
    requires k < |Ancestors(target[1..])|
    ensures |Ancestors(target)| == |Ancestors(target[1..])| + 1
    ensures Ancestors(target)[0] == ""
    ensures Ancestors(target)[k + 1] == [Sep] + Ancestors(target[1..])[k]
  {
    var rest := Split(target[1..]);
    var segs := Split(target);
    assert segs == [""] + rest;
    assert segs[..1] == [""];
    assert Join([""]) == "";
    var pre := [""] + rest[..k + 1];
    assert segs[..k + 2] == pre;
    assert pre[1..] == rest[..k + 1];
    assert Join(pre) == "" + [Sep] + Join(rest[..k + 1]);
  }

  /** A target starting with another character: that character before each ancestor of the rest. */
  lemma AncestorsAfterChar(target: string, k: nat)
    requires |target| > 0 && target[0] != Sep
    requires k < |Ancestors(target[1..])|
    ensures |Ancestors(target)| == |Ancestors(target[1..])|
    ensures Ancestors(target)[k] == [target[0]] + Ancestors(target[1..])[k]
  {
    var rest := Split(target[1..]);
    var segs := Split(target);
    var pre := rest[..k + 1];
    assert segs[..k + 1] == [[target[0]] + pre[0]] + pre[1..];
    JoinConsChar(target[0], pre[0], pre[1..]);
    assert pre == [pre[0]] + pre[1..];
  }

  /**
   * The cumulative prefixes built from `split('/')` and `join('/')` are
   * exactly the string prefixes of the target that end at a separator or
   * at the end of the target.
   */
  lemma {:induction false} AncestorsCharacterized(p: string, target: string)
    ensures p in Ancestors(target) <==> IsAncestorPath(p, target)
    decreases |target|
  {
    if |target| == 0 {
      assert Split(target) == [""];
      assert Split(target)[..1] == [""];
      assert Join([""]) == "";
      assert Ancestors(target) == [""];
    } else if target[0] == Sep {
      var t := target[1..];
      if p == "" {
        AncestorsAfterSep(target, 0);
      } else {
        AncestorsAfterSep(target, 0);
        if p in Ancestors(target) {
          var k :| 0 <= k < |Ancestors(target)| && Ancestors(target)[k] == p;
          assert k != 0;
          AncestorsAfterSep(target, k - 1);
          AncestorsCharacterized(p[1..], t);
          assert p[1..] == Ancestors(t)[k - 1];
        }
        if IsAncestorPath(p, target) {
          AncestorsCharacterized(p[1..], t);
          var k :| 0 <= k < |Ancestors(t)| && Ancestors(t)[k] == p[1..];
          AncestorsAfterSep(target, k);
          assert p == [Sep] + p[1..];
        }
        assert p in Ancestors(target) <==> IsAncestorPath(p, target);
      }
    } else {
      var t := target[1..];
      if p == "" {
        if p in Ancestors(target) {
          var k :| 0 <= k < |Ancestors(target)| && Ancestors(target)[k] == p;
          AncestorsAfterChar(target, k);
        }
      } else {
        if p in Ancestors(target) {
          var k :| 0 <= k < |Ancestors(target)| && Ancestors(target)[k] == p;
          AncestorsAfterChar(target, k);
          AncestorsCharacterized(p[1..], t);
          assert p[1..] == Ancestors(t)[k];
        }
        if IsAncestorPath(p, target) {
          AncestorsCharacterized(p[1..], t);
          var k :| 0 <= k < |Ancestors(t)| && Ancestors(t)[k] == p[1..];
          AncestorsAfterChar(target, k);
          assert p == [target[0]] + p[1..];
        }
      }
    }
  }

  /** An ancestor of an ancestor of a target is an ancestor of that target. */
  lemma AncestorPathTransitive(q: string, p: string, target: string)
    requires IsAncestorPath(q, p) && IsAncestorPath(p, target)
    ensures IsAncestorPath(q, target)
  {
    if |q| < |p| {
      assert target[|q|] == p[|q|];
    }
  }

  /** A proper ancestor of the `k`-th entry of a target's chain is an earlier entry of that chain. */
  lemma ProperAncestorEarlier(target: string, k: nat, q: string) returns (m: nat)
    requires k < |Ancestors(target)|
    requires IsAncestorPath(q, Ancestors(target)[k]) && q != Ancestors(target)[k]
    ensures m < k && Ancestors(target)[m] == q
  {
    var chain := Ancestors(target);
    AncestorsCharacterized(chain[k], target);
    AncestorPathTransitive(q, chain[k], target);
    AncestorsCharacterized(q, target);
    m :| 0 <= m < |chain| && chain[m] == q;
    if m > k {
      AncestorsLengthIncreasing(target, k, m);
    }
  }
}
