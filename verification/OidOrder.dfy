/** Object identifiers as an ordered set: the lexicographic order of RFC 1157, the leaves of a
    prefix-closed set, the GETNEXT successor, and what a depth-first search has to establish. */
module OidOrder {
  import opened OidText

  // ----- lexicographic order

  predicate LessAt(a: Path, b: Path, k: nat) {
    k <= |a| && k < |b| && a[..k] == b[..k] && (k == |a| || a[k] < b[k])
  }

  ghost predicate Less(a: Path, b: Path) {
    exists k: nat :: LessAt(a, b, k)
  }

  lemma LessIrreflexive(a: Path)
    ensures !Less(a, a)
  {
  }

  lemma SharedPrefix(a: Path, b: Path, d: nat, k: nat)
    requires k <= d <= |a| && d <= |b| && a[..d] == b[..d]
    ensures a[..k] == b[..k] && (k < d ==> a[k] == b[k])
  {
    assert a[..k] == a[..d][..k] && b[..k] == b[..d][..k];
    assert k < d ==> a[k] == a[..d][k] && b[k] == b[..d][k];
  }

  lemma LessTransitive(a: Path, b: Path, c: Path)
    requires Less(a, b) && Less(b, c)
    ensures Less(a, c)
  {
    var j: nat :| LessAt(a, b, j);
    var k: nat :| LessAt(b, c, k);
    var m := if j < k then j else k;
    assert a[..m] == a[..j][..m] == b[..j][..m] == b[..m] == b[..k][..m] == c[..m];
    if j < k {
      assert b[j] == b[..k][j] == c[..k][j] == c[j];
    }
    if k < j {
      assert a[k] == a[..j][k] == b[..j][k] == b[k];
    }
    assert LessAt(a, c, m);
  }

  /** The first position where two paths part, or the length of the shorter. */
  function Common(a: Path, b: Path): (k: nat)
    ensures k <= |a| && k <= |b| && a[..k] == b[..k]
    ensures k < |a| && k < |b| ==> a[k] != b[k]
  {
    if a == [] || b == [] || a[0] != b[0] then 0
    else
      var k := Common(a[1..], b[1..]);
      assert a[..k + 1] == [a[0]] + a[1..][..k] && b[..k + 1] == [b[0]] + b[1..][..k];
      k + 1
  }

  lemma LessTotal(a: Path, b: Path)
    ensures a == b || Less(a, b) || Less(b, a)
  {
    var k := Common(a, b);
    if k == |a| == |b| {
    } else if k == |a| || (k < |b| && a[k] < b[k]) {
      assert LessAt(a, b, k);
    } else {
      assert LessAt(b, a, k);
    }
  }

  lemma LessAsymmetric(a: Path, b: Path)
    requires Less(a, b)
    ensures !Less(b, a) && a != b
  {
    if Less(b, a) {
      LessTransitive(a, b, a);
    }
  }

  // ----- prefix-closed sets and their leaves

  /** The nodes of a tree of identifiers. */
  ghost predicate Closed(P: set<Path>) {
    [] !in P && forall p, k :: p in P && 0 < k <= |p| ==> p[..k] in P
  }

  predicate Extends(p: Path, q: Path) {
    |q| <= |p| && p[..|q|] == q
  }

  ghost predicate IsLeaf(P: set<Path>, p: Path) {
    p in P && forall q :: q in P && Extends(q, p) ==> q == p
  }

  /** The least leaf at or below m. */
  ghost predicate IsFirstLeaf(P: set<Path>, m: Path, l: Path) {
    IsLeaf(P, l) && Extends(l, m) && forall q :: IsLeaf(P, q) && Extends(q, m) ==> q == l || Less(l, q)
  }

  /** The least leaf above q: the answer RFC 1157 section 4.1.3 asks for. */
  ghost predicate IsSuccessor(P: set<Path>, q: Path, r: Path) {
    IsLeaf(P, r) && Less(q, r) && forall l :: IsLeaf(P, l) && Less(q, l) ==> l == r || Less(r, l)
  }

  /** The successor, found in q's own top-level tree. */
  ghost predicate IsNearSuccessor(P: set<Path>, q: Path, r: Path) {
    IsSuccessor(P, q, r) && q != [] && r != [] && r[0] == q[0]
  }

  ghost predicate HasNoSuccessor(P: set<Path>, q: Path) {
    forall l :: IsLeaf(P, l) ==> !Less(q, l)
  }

  /** All identifiers share their first component. */
  ghost predicate SingleRoot(P: set<Path>) {
    forall p, q :: p in P && q in P && p != [] && q != [] ==> p[0] == q[0]
  }

  lemma ExtendsTransitive(a: Path, b: Path, c: Path)
    requires Extends(a, b) && Extends(b, c)
    ensures Extends(a, c)
  {
    assert a[..|c|] == a[..|b|][..|c|];
  }

  /** Below a node the path continues with one of the node's children. */
  lemma StepDown(P: set<Path>, m: Path, l: Path)
    requires Closed(P) && l in P && Extends(l, m) && l != m
    ensures |l| > |m| && m + [l[|m|]] in P && Extends(l, m + [l[|m|]])
  {
    assert l[..|m|] == m && l[..|l|] == l;
    assert l[..|m| + 1] == m + [l[|m|]];
  }

  lemma LeafBelowNode(P: set<Path>, m: Path, k: nat)
    requires m + [k] in P
    ensures !IsLeaf(P, m)
  {
    assert Extends(m + [k], m);
  }

  ghost function Below(keys: set<Path>, p: Path): set<Path> {
    set q | q in keys && Extends(q, p) && q != p
  }

  lemma BelowShrinks(keys: set<Path>, p: Path, k: nat)
    requires p + [k] in keys
    ensures Below(keys, p + [k]) < Below(keys, p)
  {
    var c := p + [k];
    assert Extends(c, p) && c in Below(keys, p) && c !in Below(keys, c);
    forall q | q in Below(keys, c) ensures q in Below(keys, p) {
      ExtendsTransitive(q, c, p);
      assert |q| >= |c|;
    }
  }

  /** Every node has a leaf at or below it. */
  lemma {:induction false} LeafBelow(keys: set<Path>, p: Path) returns (l: Path)
    requires Closed(keys) && p in keys
    ensures IsLeaf(keys, l) && Extends(l, p)
    decreases Below(keys, p)
  {
    if IsLeaf(keys, p) {
      l := p;
    } else {
      var q :| q in keys && Extends(q, p) && q != p;
      StepDown(keys, p, q);
      BelowShrinks(keys, p, q[|p|]);
      l := LeafBelow(keys, p + [q[|p|]]);
      ExtendsTransitive(l, p + [q[|p|]], p);
    }
  }

  // ----- what the search steps establish

  /** The child with the smallest index leads to the first leaf. */
  lemma FirstChild(P: set<Path>, m: Path, k: nat, l: Path)
    requires Closed(P) && m + [k] in P
    requires forall j :: m + [j] in P ==> k <= j
    requires IsFirstLeaf(P, m + [k], l)
    ensures IsFirstLeaf(P, m, l)
  {
    ExtendsTransitive(l, m + [k], m);
    forall q | IsLeaf(P, q) && Extends(q, m)
      ensures q == l || Less(l, q)
    {
      LeafBelowNode(P, m, k);
      StepDown(P, m, q);
      if q[|m|] != k {
        assert l[..|m|] == m == q[..|m|];
        assert LessAt(l, q, |m|);
      }
    }
  }

  lemma LeafIsFirst(P: set<Path>, l: Path)
    requires IsLeaf(P, l)
    ensures IsFirstLeaf(P, l, l)
  {
  }

  /** Every leaf below l[..k] has been passed: it is l or less than l. */
  ghost predicate PassedUpTo(P: set<Path>, l: Path, k: nat)
    requires k <= |l|
  {
    forall q :: IsLeaf(P, q) && Extends(q, l[..k]) ==> q == l || Less(q, l)
  }

  lemma NothingPassedYet(P: set<Path>, l: Path)
    requires IsLeaf(P, l)
    ensures PassedUpTo(P, l, |l|)
  {
    assert l[..|l|] == l;
  }

  /** No further sibling at this level: everything below the parent has been passed as well. */
  lemma NoSibling(P: set<Path>, l: Path, k: nat)
    requires Closed(P) && l in P && k < |l| && PassedUpTo(P, l, k + 1)
    requires forall j :: l[..k] + [j] in P ==> j <= l[k]
    ensures PassedUpTo(P, l, k)
  {
    forall q | IsLeaf(P, q) && Extends(q, l[..k])
      ensures q == l || Less(q, l)
    {
      assert l[..k + 1] == l[..k] + [l[k]];
      LeafBelowNode(P, l[..k], l[k]);
      StepDown(P, l[..k], q);
      if q[k] < l[k] {
        assert LessAt(q, l, k);
      }
    }
  }

  /** The first leaf below the next sibling is the next leaf. */
  lemma NextSibling(P: set<Path>, l: Path, k: nat, j: nat, r: Path)
    requires Closed(P) && l in P && k < |l| && PassedUpTo(P, l, k + 1)
    requires l[k] < j && l[..k] + [j] in P
    requires forall i :: l[..k] + [i] in P ==> i <= l[k] || j <= i
    requires IsFirstLeaf(P, l[..k] + [j], r)
    ensures IsSuccessor(P, l, r) && (k > 0 ==> IsNearSuccessor(P, l, r))
  {
    var m := l[..k];
    assert r[..k] == r[..k + 1][..k] == m && r[k] == r[..k + 1][k] == j;
    assert LessAt(l, r, k);
    if k > 0 {
      SharedPrefix(r, l, k, 0);
    }
    forall q | IsLeaf(P, q) && Less(l, q)
      ensures q == r || Less(r, q)
    {
      var d: nat :| LessAt(l, q, d);
      if d < k {
        assert r[d] == r[..k][d] == l[d];
        assert r[..d] == r[..k][..d] == l[..d];
        assert LessAt(r, q, d);
      } else {
        assert q[..k] == q[..d][..k] == l[..d][..k] == m;
        LeafBelowNode(P, m, j);
        StepDown(P, m, q);
        NotPassed(P, l, q, k, d);
        if q[k] != j {
          assert LessAt(r, q, k);
        }
      }
    }
  }

  /** A greater leaf beside l sits on a greater branch once l's own branch has been passed. */
  lemma NotPassed(P: set<Path>, l: Path, q: Path, k: nat, d: nat)
    requires k < |l| && PassedUpTo(P, l, k + 1) && IsLeaf(P, q) && k < |q|
    requires LessAt(l, q, d) && d >= k && q[..k] == l[..k]
    ensures q[k] > l[k]
  {
    if d > k {
      assert q[k] == q[..d][k] == l[..d][k] == l[k];
      assert q[..k + 1] == l[..k + 1];
      assert Less(l, q);
      if q == l || Less(q, l) {
        LessAsymmetric(l, q);
      }
    }
  }

  // ----- least elements exist

  lemma {:induction false} LeastExists(S: set<Path>) returns (m: Path)
    requires S != {}
    ensures m in S && forall p :: p in S ==> p == m || Less(m, p)
    decreases |S|
  {
    var x :| x in S;
    if S == {x} {
      m := x;
    } else {
      assert S - {x} != {};
      var y := LeastExists(S - {x});
      LessTotal(x, y);
      if Less(x, y) {
        m := x;
        forall p | p in S && p != x ensures Less(x, p) {
          if p != y {
            LessTransitive(x, y, p);
          }
        }
      } else {
        m := y;
      }
    }
  }

  lemma FirstLeafExists(P: set<Path>, m: Path) returns (l: Path)
    requires Closed(P) && m in P
    ensures IsFirstLeaf(P, m, l)
  {
    var some := LeafBelow(P, m);
    var S := set q | q in P && IsLeaf(P, q) && Extends(q, m);
    assert some in S;
    l := LeastExists(S);
  }

  lemma SuccessorExists(P: set<Path>, q: Path, l: Path) returns (r: Path)
    requires IsLeaf(P, l) && Less(q, l)
    ensures IsSuccessor(P, q, r)
  {
    var S := set p | p in P && IsLeaf(P, p) && Less(q, p);
    assert l in S;
    r := LeastExists(S);
  }
}
