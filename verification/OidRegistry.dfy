/** What the tree's answers mean: GETNEXT against RFC 1157's lexicographic successor, whole walks,
    and lookups against the list of registrations. */
module OidRegistry {
  import opened OidText
  import opened OidOrder
  import opened SnmpData
  import opened Wrappers

  // ----- following canonical names

  lemma PartOfPath(q: Path, i: nat)
    requires i < |q|
    ensures |Parts(q)| == |q| && Parts(q)[i] == Digits(q[i]) && Atoi(Parts(q)[i]) == q[i]
  {
    PartsAt(q);
    AtoiDigits(q[i]);
  }

  /** The longest prefix of q the tree knows. */
  function KnownPart(keys: set<Path>, pre: Path, q: Path, i: nat): Path
    requires i <= |q|
    decreases |q| - i
  {
    if i < |q| && pre + [q[i]] in keys then KnownPart(keys, pre + [q[i]], q, i + 1) else pre
  }

  lemma {:induction false} DescendIsKnown(keys: set<Path>, pre: Path, q: Path, i: nat)
    requires i <= |q| && |Parts(q)| == |q|
    ensures Descend(keys, pre, Parts(q)[i..]) == KnownPart(keys, pre, q, i)
    decreases |q| - i
  {
    PartsAt(q);
    var parts := Parts(q)[i..];
    if i < |q| {
      PartOfPath(q, i);
      assert parts[0] == Parts(q)[i] && parts[1..] == Parts(q)[i + 1..];
      if pre + [q[i]] in keys {
        DescendIsKnown(keys, pre + [q[i]], q, i + 1);
      }
    }
  }

  lemma {:induction false} KnownIsPrefix(keys: set<Path>, q: Path, i: nat)
    requires i <= |q|
    ensures var m := KnownPart(keys, q[..i], q, i);
            && i <= |m| <= |q| && m == q[..|m|]
            && (m == q[..i] || m in keys) && (|m| < |q| ==> m + [q[|m|]] !in keys)
    decreases |q| - i
  {
    if i < |q| && q[..i] + [q[i]] in keys {
      assert q[..i] + [q[i]] == q[..i + 1];
      KnownIsPrefix(keys, q, i + 1);
    }
  }

  /** For a canonical name, the search stops at its longest known prefix. */
  ghost predicate IsLongestKnown(keys: set<Path>, q: Path, m: Path) {
    |m| <= |q| && m == q[..|m|] && (m == [] || m in keys) && (|m| < |q| ==> m + [q[|m|]] !in keys)
  }

  lemma NameLeadsTo(keys: set<Path>, q: Path)
    requires q != []
    ensures IsLongestKnown(keys, q, Descend(keys, [], Split(Join(q))))
  {
    SplitJoin(q);
    PartsAt(q);
    assert Parts(q)[0..] == Parts(q);
    DescendIsKnown(keys, [], q, 0);
    assert q[..0] == [];
    KnownIsPrefix(keys, q, 0);
  }

  lemma PrefixStep(q: Path, m: Path)
    requires |m| < |q| && m == q[..|m|]
    ensures q[..|m| + 1] == m + [q[|m|]]
  {
  }

  lemma KnownNameInTree(keys: set<Path>, q: Path, m: Path)
    requires Closed(keys) && q in keys && IsLongestKnown(keys, q, m)
    ensures m == q
  {
    assert |m| == |q| ==> q[..|m|] == q;
    if |m| < |q| {
      PrefixStep(q, m);
    }
  }

  /** find_by_oid agrees with the map, for every canonical name. */
  lemma LookupIsMap<T>(m: map<Path, Option<T>>, q: Path)
    requires Closed(m.Keys) && q != []
    ensures Lookup(m, Split(Join(q))) == if q in m then Some(m[q]) else None
  {
    NameLeadsTo(m.Keys, q);
    SplitJoin(q);
    PartsAt(q);
    var d := Descend(m.Keys, [], Split(Join(q)));
    assert |d| == |q| ==> q[..|d|] == q;
    if q in m {
      KnownNameInTree(m.Keys, q, d);
    }
  }

  // ----- GETNEXT

  /** What RFC 1157 asks for: the least leaf above the name, or nothing if there is none. */
  ghost predicate Correct(keys: set<Path>, q: Path, r: string) {
    (r == "" && HasNoSuccessor(keys, q)) || exists f :: IsSuccessor(keys, q, f) && r == Join(f)
  }

  ghost predicate Answer(names: Directory, oid: string, r: string) {
    var m := Descend(names.keys, [], Split(oid));
    (m == [] ==> names.roots != []) && NextAnswer(names.keys, Start(names.roots, m), oid, r)
  }

  lemma SuccessorUnique(keys: set<Path>, q: Path, a: Path, b: Path)
    requires IsSuccessor(keys, q, a) && IsSuccessor(keys, q, b)
    ensures a == b
  {
    if a != b {
      LessAsymmetric(a, b);
    }
  }

  lemma FirstLeafUnique(keys: set<Path>, m: Path, a: Path, b: Path)
    requires IsFirstLeaf(keys, m, a) && IsFirstLeaf(keys, m, b)
    ensures a == b
  {
    if a != b {
      LessAsymmetric(a, b);
    }
  }

  /** The first leaf below a prefix of q, if it is above q at all, is the least leaf above q. */
  lemma FirstBelowIsSuccessor(keys: set<Path>, q: Path, m: Path, f: Path)
    requires IsFirstLeaf(keys, m, f) && Extends(q, m) && Less(q, f)
    ensures IsSuccessor(keys, q, f)
  {
    forall l | IsLeaf(keys, l) && Less(q, l) ensures l == f || Less(f, l) {
      if !Extends(l, m) {
        var d: nat :| LessAt(q, l, d);
        BesideSubtree(q, m, f, l, d);
      }
    }
  }

  lemma BesideSubtree(q: Path, m: Path, f: Path, l: Path, d: nat)
    requires Extends(q, m) && Extends(f, m) && !Extends(l, m) && LessAt(q, l, d)
    ensures Less(f, l)
  {
    if d >= |m| {
      SharedPrefix(l, q, d, |m|);
    } else {
      SharedPrefix(f, q, |m|, d);
      assert LessAt(f, l, d);
    }
  }

  /** The answer is determined by the tree. */
  lemma AnswerUnique(names: Directory, oid: string, r1: string, r2: string)
    requires Answer(names, oid, r1) && Answer(names, oid, r2)
    ensures r1 == r2
  {
    hide Join, Split, Descend, IsFirstLeaf, PassedUpTo, IsNearSuccessor;
    var keys := names.keys;
    var m := Start(names.roots, Descend(keys, [], Split(oid)));
    var a :| IsFirstLeaf(keys, m, a) && AnswerFrom(keys, a, oid, r1);
    var b :| IsFirstLeaf(keys, m, b) && AnswerFrom(keys, b, oid, r2);
    FirstLeafUnique(keys, m, a, b);
    if Join(a) == oid {
      forall f | IsNearSuccessor(keys, a, f) ensures !PassedUpTo(keys, a, 1) {
        NearMeansNotPassed(keys, a, f);
      }
      forall f, g | IsNearSuccessor(keys, a, f) && IsNearSuccessor(keys, a, g) ensures f == g {
        NearUnique(keys, a, f, g);
      }
    }
  }

  lemma NearMeansNotPassed(keys: set<Path>, a: Path, f: Path)
    requires IsNearSuccessor(keys, a, f)
    ensures !PassedUpTo(keys, a, 1)
  {
    assert a[..1] == f[..1] && Extends(f, a[..1]);
    LessAsymmetric(a, f);
  }

  lemma NearUnique(keys: set<Path>, a: Path, f: Path, g: Path)
    requires IsNearSuccessor(keys, a, f) && IsNearSuccessor(keys, a, g)
    ensures f == g
  {
    SuccessorUnique(keys, a, f, g);
  }

  /** For a known interior node, and for a leaf with a later leaf in its own top-level tree, the
      answer is the successor; for a leaf that is the last one there it is empty. */
  lemma KnownName(names: Directory, q: Path, r: string)
    requires Closed(names.keys) && q in names.keys && q != [] && Answer(names, Join(q), r)
    ensures (exists f :: IsNearSuccessor(names.keys, q, f) && r == Join(f))
            || (r == "" && IsLeaf(names.keys, q) && q != [] && PassedUpTo(names.keys, q, 1))
  {
    var keys := names.keys;
    hide IsFirstLeaf, IsNearSuccessor, IsLeaf, PassedUpTo, Closed, Join, Split;
    NameLeadsTo(keys, q);
    KnownNameInTree(keys, q, Descend(keys, [], Split(Join(q))));
    var l :| IsFirstLeaf(keys, q, l) && AnswerFrom(keys, l, Join(q), r);
    FirstIsLeaf(keys, q, l);
    if l == q {
    } else {
      if Join(l) == Join(q) {
        JoinInjective(l, q);
      }
      InteriorSuccessor(keys, q, l);
    }
  }

  lemma InteriorSuccessor(keys: set<Path>, q: Path, l: Path)
    requires IsFirstLeaf(keys, q, l) && l != q && q != []
    ensures IsNearSuccessor(keys, q, l)
  {
    assert q[..|q|] == q && (|l| == |q| ==> l == q);
    assert LessAt(q, l, |q|);
    FirstBelowIsSuccessor(keys, q, q, l);
    SharedPrefix(l, q, |q|, 0);
  }

  /** Everything below q's top-level node has been passed, or something is left above it elsewhere. */
  lemma NothingLeft(keys: set<Path>, q: Path, l: Path)
    requires Closed(keys) && q in keys && IsLeaf(keys, q) && q != [] && PassedUpTo(keys, q, 1)
    requires IsLeaf(keys, l) && Less(q, l)
    ensures l[0] > q[0]
  {
    var d: nat :| LessAt(q, l, d);
    if l[0] == q[0] {
      assert l[..1] == q[..1];
      LessAsymmetric(q, l);
    } else if d > 0 {
      SharedPrefix(q, l, d, 0);
    }
  }

  /** For a name in the tree the answer is right, with one exception: after the last leaf of a
      top-level tree it is empty, although a later top-level tree may have more. */
  lemma KnownNameExact(names: Directory, q: Path, r: string)
    requires Closed(names.keys) && q in names.keys && Answer(names, Join(q), r)
    ensures var keys := names.keys;
            Correct(keys, q, r)
            <==> (exists l :: IsLeaf(keys, l) && Less(q, l) && l[0] == q[0]) || (forall p :: p in keys ==> p[0] <= q[0])
  {
    var keys := names.keys;
    KnownName(names, q, r);
    if f :| IsNearSuccessor(keys, q, f) && r == Join(f) {
    } else {
      EmptyAnswer(keys, q);
      forall f | IsSuccessor(keys, q, f) ensures Join(f) != "" {
        JoinNonEmpty(f);
      }
    }
  }

  /** After the last leaf of q's top-level tree, nothing is left exactly when no later top-level tree exists. */
  lemma EmptyAnswer(keys: set<Path>, q: Path)
    requires Closed(keys) && q in keys && IsLeaf(keys, q) && q != [] && PassedUpTo(keys, q, 1)
    ensures HasNoSuccessor(keys, q) <==> forall p :: p in keys ==> p[0] <= q[0]
    ensures forall l :: IsLeaf(keys, l) && Less(q, l) ==> l[0] > q[0]
  {
    forall l | IsLeaf(keys, l) && Less(q, l) ensures l[0] > q[0] {
      NothingLeft(keys, q, l);
    }
    if p :| p in keys && p[0] > q[0] {
      var l := LeafBelow(keys, p);
      SharedPrefix(l, p, |p|, 0);
      assert LessAt(q, l, 0);
    }
  }

  /** Where all names share their first component, GETNEXT of every name in the tree is right. */
  lemma KnownNameCorrect(names: Directory, q: Path, r: string)
    requires Closed(names.keys) && SingleRoot(names.keys) && q in names.keys && Answer(names, Join(q), r)
    ensures Correct(names.keys, q, r)
  {
    assert forall p :: p in names.keys ==> p[0] == q[0];
    KnownNameExact(names, q, r);
  }

  /** The search has an answer for every name in the tree. */
  lemma AnswerExists(names: Directory, q: Path) returns (r: string)
    requires Closed(names.keys) && q in names.keys
    ensures Answer(names, Join(q), r)
  {
    var keys := names.keys;
    hide Join, Split, Descend, IsFirstLeaf, PassedUpTo, IsNearSuccessor, IsLeaf, IsSuccessor;
    assert q != [];
    NameLeadsTo(keys, q);
    KnownNameInTree(keys, q, Descend(keys, [], Split(Join(q))));
    var l := FirstLeafExists(keys, q);
    FirstIsLeaf(keys, q, l);
    LeafNonEmpty(keys, l);
    if Join(l) != Join(q) {
      r := Join(l);
    } else {
      r := AnswerAfter(keys, l);
    }
    assert AnswerFrom(keys, l, Join(q), r);
  }

  lemma LeafNonEmpty(keys: set<Path>, l: Path)
    requires Closed(keys) && IsLeaf(keys, l)
    ensures l != []
  {
  }

  lemma AnswerAfter(keys: set<Path>, l: Path) returns (r: string)
    requires Closed(keys) && IsLeaf(keys, l) && l != []
    ensures (r == "" && PassedUpTo(keys, l, 1)) || (exists f :: IsNearSuccessor(keys, l, f) && r == Join(f))
  {
    if q :| IsLeaf(keys, q) && Extends(q, l[..1]) && q != l && !Less(q, l) {
      LessTotal(q, l);
      var f := SuccessorExists(keys, l, q);
      NearBy(keys, l, q, f);
      r := Join(f);
    } else {
      r := "";
    }
  }

  /** With a later leaf below the same top-level node, the successor lies there too. */
  lemma NearBy(keys: set<Path>, l: Path, q: Path, f: Path)
    requires l != [] && IsLeaf(keys, q) && Extends(q, l[..1]) && Less(l, q) && IsSuccessor(keys, l, f)
    ensures IsNearSuccessor(keys, l, f)
  {
    var d: nat :| LessAt(l, f, d);
    assert q[0] == q[..1][0] == l[0];
    if d > 0 {
      SharedPrefix(l, f, d, 0);
    } else {
      assert f[0] > l[0];
      assert q != f;
      assert LessAt(q, f, 0);
      LessAsymmetric(q, f);
    }
  }

  /** For a name that is not in the tree, m is the longest prefix that is: the answer is the first leaf
      below m, which is right exactly when m has children and all of them come after the name. */
  lemma UnknownNameExact(names: Directory, q: Path, m: Path, r: string)
    requires Closed(names.keys) && q != [] && q !in names.keys && m != []
    requires m == Descend(names.keys, [], Split(Join(q))) && Answer(names, Join(q), r)
    ensures |m| < |q| && m == q[..|m|]
    ensures Correct(names.keys, q, r)
            <==> (exists k :: m + [k] in names.keys) && forall k :: m + [k] in names.keys ==> q[|m|] < k
  {
    hide Join, Split, Descend;
    var keys := names.keys;
    NameLeadsTo(keys, q);
    assert q[..|q|] == q;
    var l := FirstLeafAnswered(names, q, m, r);
    FirstLeafAbove(keys, q, m, l);
    if Less(q, l) {
      FirstBelowIsSuccessor(keys, q, m, l);
    } else {
      OnlyIfSuccessor(keys, q, l);
    }
  }

  /** For a name that is not in the tree the answer names the first leaf below where the search starts. */
  lemma FirstLeafAnswered(names: Directory, q: Path, m: Path, r: string) returns (l: Path)
    requires q !in names.keys && (m == [] ==> names.roots != []) && m == Descend(names.keys, [], Split(Join(q)))
    requires Answer(names, Join(q), r)
    ensures l != [] && IsFirstLeaf(names.keys, Start(names.roots, m), l) && r == Join(l)
  {
    hide Join, Split, Descend, IsFirstLeaf, PassedUpTo, IsNearSuccessor;
    l :| IsFirstLeaf(names.keys, Start(names.roots, m), l) && AnswerFrom(names.keys, l, Join(q), r);
    FirstIsLeaf(names.keys, Start(names.roots, m), l);
    LeafInTree(names.keys, l);
    if Join(l) == Join(q) {
      JoinInjective(l, q);
    }
  }

  lemma LeafInTree(keys: set<Path>, l: Path)
    requires IsLeaf(keys, l)
    ensures l in keys
  {
  }

  lemma OnlyIfSuccessor(keys: set<Path>, q: Path, l: Path)
    requires l != []
    ensures Correct(keys, q, Join(l)) <==> IsSuccessor(keys, q, l)
  {
    hide Join, IsSuccessor;
    JoinNonEmpty(l);
    if Correct(keys, q, Join(l)) {
      var f :| IsSuccessor(keys, q, f) && Join(l) == Join(f);
      JoinInjective(l, f);
    }
  }

  /** The top-level components in the order the tree lists them. */
  ghost predicate ListsRoots(names: Directory) {
    forall k: nat :: k in names.roots <==> [k] in names.keys
  }

  /** If not even its first component is known, the answer is the first leaf below whatever top-level
      name was registered first, which is right exactly when that is the next one after the name's. */
  lemma UnknownRootExact(names: Directory, q: Path, r: string)
    requires Closed(names.keys) && q != [] && [q[0]] !in names.keys && names.roots != [] && ListsRoots(names)
    requires Answer(names, Join(q), r)
    ensures Correct(names.keys, q, r)
            <==> q[0] < names.roots[0] && forall k :: k in names.roots ==> k < q[0] || names.roots[0] <= k
  {
    hide Join, Split, Correct, Closed, IsFirstLeaf, IsSuccessor, ListsRoots, Answer, IsLongestKnown, Descend;
    NameLeadsTo(names.keys, q);
    NothingKnown(names.keys, q, Descend(names.keys, [], Split(Join(q))));
    var l := FirstLeafAnswered(names, q, [], r);
    OnlyIfSuccessor(names.keys, q, l);
    FirstRootSuccessor(names, q, l);
  }

  lemma FirstRootSuccessor(names: Directory, q: Path, l: Path)
    requires Closed(names.keys) && q != [] && [q[0]] !in names.keys && names.roots != [] && ListsRoots(names)
    requires IsFirstLeaf(names.keys, [names.roots[0]], l)
    ensures IsSuccessor(names.keys, q, l)
            <==> q[0] < names.roots[0] && forall k :: k in names.roots ==> k < q[0] || names.roots[0] <= k
  {
    hide Closed, IsFirstLeaf, IsSuccessor, Less;
    var first := names.roots[0];
    assert first != q[0] && forall k :: k in names.roots ==> k != q[0];
    if first < q[0] {
      EarlierRoot(names.keys, q, first, l);
    } else if k :| k in names.roots && q[0] < k < first {
      RootBetween(names.keys, q, k, first, l);
    } else {
      NextRoot(names, q, l);
    }
  }

  lemma EarlierRoot(keys: set<Path>, q: Path, first: nat, l: Path)
    requires q != [] && IsFirstLeaf(keys, [first], l) && first < q[0]
    ensures !IsSuccessor(keys, q, l)
  {
    assert LessAt(l, q, 0);
    LessAsymmetric(l, q);
  }

  lemma RootBetween(keys: set<Path>, q: Path, k: nat, first: nat, l: Path)
    requires Closed(keys) && [k] in keys && q != [] && IsFirstLeaf(keys, [first], l) && q[0] < k < first
    ensures !IsSuccessor(keys, q, l)
  {
    var other := LeafBelow(keys, [k]);
    assert other[0] == k && LessAt(q, other, 0) && LessAt(other, l, 0);
    LessAsymmetric(other, l);
  }

  lemma NothingKnown(keys: set<Path>, q: Path, m: Path)
    requires Closed(keys) && q != [] && [q[0]] !in keys && IsLongestKnown(keys, q, m)
    ensures m == [] && q !in keys
  {
    assert q[..1] == [q[0]];
    assert forall n :: 0 < n <= |q| ==> q[..n][..1] == [q[0]];
  }

  lemma NextRoot(names: Directory, q: Path, l: Path)
    requires Closed(names.keys) && ListsRoots(names) && names.roots != [] && q != []
    requires q[0] < names.roots[0] && forall k :: k in names.roots ==> k <= q[0] || names.roots[0] <= k
    requires [q[0]] !in names.keys && IsFirstLeaf(names.keys, [names.roots[0]], l)
    ensures IsSuccessor(names.keys, q, l)
  {
    var first := names.roots[0];
    assert l[0] == first && LessAt(q, l, 0);
    forall o | IsLeaf(names.keys, o) && Less(q, o) ensures o == l || Less(l, o) {
      assert o[..1] == [o[0]];
      assert o[0] in names.roots;
      var d: nat :| LessAt(q, o, d);
      assert o[0] > q[0];
      if o[0] == first {
        assert Extends(o, [first]);
      } else {
        assert LessAt(l, o, 0);
      }
    }
  }

  lemma FirstLeafAbove(keys: set<Path>, q: Path, m: Path, l: Path)
    requires Closed(keys) && IsLongestKnown(keys, q, m) && |m| < |q| && IsFirstLeaf(keys, m, l)
    ensures Less(q, l) <==> (exists k :: m + [k] in keys) && forall k :: m + [k] in keys ==> q[|m|] < k
  {
    if l == m {
      forall k ensures m + [k] !in keys {
        if m + [k] in keys {
          LeafBelowNode(keys, m, k);
        }
      }
      assert LessAt(l, q, |l|);
      LessAsymmetric(l, q);
    } else {
      StepDown(keys, m, l);
      var c := l[|m|];
      FirstChildIsLeast(keys, m, l);
      if q[|m|] < c {
        assert LessAt(q, l, |m|);
      } else {
        assert LessAt(l, q, |m|);
        LessAsymmetric(l, q);
      }
    }
  }

  lemma FirstChildIsLeast(keys: set<Path>, m: Path, l: Path)
    requires Closed(keys) && IsFirstLeaf(keys, m, l) && |l| > |m|
    ensures forall k :: m + [k] in keys ==> l[|m|] <= k
  {
    forall k | m + [k] in keys ensures l[|m|] <= k {
      var g := LeafBelow(keys, m + [k]);
      ExtendsTransitive(g, m + [k], m);
      assert g[..|m| + 1] == m + [k];
      if k < l[|m|] {
        assert LessAt(g, l, |m|);
        LessAsymmetric(g, l);
      }
    }
  }

  // ----- walking the whole tree

  /** Answers to successive GETNEXTs, each for the name answered before, up to the empty one. */
  ghost predicate IsWalk(names: Directory, from: string, answers: seq<string>)
    decreases |answers|
  {
    answers != [] ==>
      && Answer(names, from, answers[0])
      && (if answers[0] == "" then |answers| == 1 else IsWalk(names, answers[0], answers[1..]))
  }

  predicate Finished(answers: seq<string>) {
    answers != [] && answers[|answers| - 1] == ""
  }

  ghost predicate Ascending(fs: seq<Path>) {
    forall i, j :: 0 <= i < j < |fs| ==> Less(fs[i], fs[j])
  }

  ghost function Above(keys: set<Path>, q: Path): set<Path> {
    set l | l in keys && Less(q, l)
  }

  lemma AboveShrinks(keys: set<Path>, q: Path, f: Path)
    requires f in keys && Less(q, f)
    ensures |Above(keys, f)| < |Above(keys, q)|
  {
    LessIrreflexive(f);
    assert Above(keys, f) <= Above(keys, q) - {f} by {
      forall l | l in Above(keys, f) ensures l in Above(keys, q) - {f} {
        LessTransitive(q, f, l);
      }
    }
    SubsetSize(Above(keys, f), Above(keys, q) - {f});
  }

  lemma {:induction false} SubsetSize(a: set<Path>, b: set<Path>)
    requires a <= b
    ensures |a| <= |b|
    decreases |a|
  {
    if a != {} {
      var x :| x in a;
      SubsetSize(a - {x}, b - {x});
    }
  }

  predicate SameTop(p: Path, q: Path) {
    p != [] && q != [] && p[0] == q[0]
  }

  /** The answers name these leaves, in strictly ascending order, all above q and in its top-level tree;
      and once the walk has finished they are all of these. */
  ghost predicate Visits(keys: set<Path>, q: Path, answers: seq<string>, fs: seq<Path>) {
    && |fs| == |answers| - (if Finished(answers) then 1 else 0)
    && (forall i :: 0 <= i < |fs| ==> IsLeaf(keys, fs[i]) && Less(q, fs[i]) && SameTop(q, fs[i]) && answers[i] == Join(fs[i]))
    && Ascending(fs)
    && (Finished(answers) ==> forall l :: IsLeaf(keys, l) && Less(q, l) && SameTop(q, l) ==> l in fs)
  }

  lemma VisitsStep(keys: set<Path>, q: Path, f: Path, answers: seq<string>, rest: seq<Path>)
    requires IsNearSuccessor(keys, q, f) && answers != [] && answers[0] == Join(f) != ""
    requires Visits(keys, f, answers[1..], rest)
    ensures Visits(keys, q, answers, [f] + rest)
  {
    hide IsLeaf, Join, Less;
    var fs := [f] + rest;
    assert Finished(answers) <==> Finished(answers[1..]);
    forall i | 0 <= i < |fs|
      ensures IsLeaf(keys, fs[i]) && Less(q, fs[i]) && SameTop(q, fs[i]) && answers[i] == Join(fs[i])
    {
      if i > 0 {
        assert fs[i] == rest[i - 1] && answers[i] == answers[1..][i - 1];
        LessTransitive(q, f, fs[i]);
      }
    }
    if Finished(answers) {
      forall l | IsLeaf(keys, l) && Less(q, l) && SameTop(q, l) ensures l in fs {
        assert l == f || l in rest;
      }
    }
  }

  lemma VisitsNothing(keys: set<Path>, q: Path, answers: seq<string>)
    requires q != [] && (answers == [] || (answers == [""] && PassedUpTo(keys, q, 1)))
    ensures Visits(keys, q, answers, [])
  {
    if answers != [] {
      forall l | IsLeaf(keys, l) && SameTop(q, l) ensures !Less(q, l) {
        assert l[..1] == q[..1];
        if Less(q, l) { LessAsymmetric(q, l); }
      }
    }
  }

  /** Every walk visits leaves in ascending order, takes at most one request per node and one more, and
      when it has stopped it has visited every leaf above its start, in the start's top-level tree,
      exactly once. */
  lemma {:induction false} WalkVisits(names: Directory, q: Path, answers: seq<string>) returns (fs: seq<Path>)
    requires Closed(names.keys) && q in names.keys && IsWalk(names, Join(q), answers)
    ensures Visits(names.keys, q, answers, fs) && |answers| <= |Above(names.keys, q)| + 1
    decreases |answers|
  {
    var keys := names.keys;
    assert q != [];
    hide Visits, Closed, Join, Answer, Above, IsSuccessor, IsLeaf, PassedUpTo;
    if answers == [] {
      fs := [];
      VisitsNothing(keys, q, answers);
    } else {
      KnownName(names, q, answers[0]);
      if f :| IsNearSuccessor(keys, q, f) && answers[0] == Join(f) {
        JoinNonEmpty(f);
        SuccessorIn(keys, q, f);
        var rest := WalkVisits(names, f, answers[1..]);
        AboveShrinks(keys, q, f);
        fs := [f] + rest;
        VisitsStep(keys, q, f, answers, rest);
      } else {
        fs := [];
        VisitsNothing(keys, q, answers);
      }
    }
  }

  lemma SuccessorIn(keys: set<Path>, q: Path, f: Path)
    requires IsSuccessor(keys, q, f)
    ensures f in keys && Less(q, f) && IsLeaf(keys, f)
  {
  }

  /** From every name in the tree there is a walk that stops. */
  lemma {:induction false} FinishedWalk(names: Directory, q: Path) returns (answers: seq<string>)
    requires Closed(names.keys) && q in names.keys
    ensures IsWalk(names, Join(q), answers) && Finished(answers)
    decreases |Above(names.keys, q)|
  {
    assert q != [];
    hide Closed, Join, Answer, Above, IsSuccessor, IsLeaf, PassedUpTo;
    var r := AnswerExists(names, q);
    KnownName(names, q, r);
    if f :| IsNearSuccessor(names.keys, q, f) && r == Join(f) {
      JoinNonEmpty(f);
      SuccessorIn(names.keys, q, f);
      AboveShrinks(names.keys, q, f);
      var rest := FinishedWalk(names, f);
      answers := [r] + rest;
      assert answers[1..] == rest;
    } else {
      answers := [r];
    }
  }

  // ----- registrations

  datatype Registration<T> = Registration(path: Path, value: T)

  /** All registrations made, in order, on an empty tree. */
  function Registered<T>(regs: seq<Registration<T>>): map<Path, Option<T>>
    decreases |regs|
  {
    if regs == [] then map[]
    else
      var last := regs[|regs| - 1];
      Register(Registered(regs[..|regs| - 1]), last.path, 0, Some(last.value))
  }

  function RegisteredRoots<T>(regs: seq<Registration<T>>): seq<nat>
    decreases |regs|
  {
    if regs == [] then []
    else
      var rest, last := RegisteredRoots(regs[..|regs| - 1]), regs[|regs| - 1];
      if last.path == [] then rest else WithRoot(rest, last.path[0])
  }

  /** The names of the tree after these registrations. */
  function RegisteredNames<T>(regs: seq<Registration<T>>): Directory {
    Directory(Registered(regs).Keys, RegisteredRoots(regs))
  }

  /** What one registration adds: the missing prefixes, the name itself with the value, nothing else. */
  lemma {:induction false} RegisterAt<T>(m: map<Path, Option<T>>, path: Path, i: nat, v: Option<T>, p: Path)
    requires i <= |path|
    ensures var r := Register(m, path, i, v);
            && (p in r <==> p in m || (i < |p| <= |path| && p == path[..|p|]))
            && (p in m ==> r[p] == m[p])
            && (p in r && p !in m ==> r[p] == if p == path then v else None)
    decreases |path| - i
  {
    if i < |path| {
      var q := path[..i + 1];
      var m2 := if q in m then m else m[q := if i + 1 == |path| then v else None];
      RegisterAt(m2, path, i + 1, v, p);
      assert i + 1 == |path| <==> q == path;
      assert p == q <==> |p| == i + 1 && p == path[..|p|];
    }
  }

  ghost predicate NonEmptyPaths<T>(regs: seq<Registration<T>>) {
    forall i :: 0 <= i < |regs| ==> regs[i].path != []
  }

  /** No registered name is a proper prefix of another. */
  ghost predicate PrefixFree<T>(regs: seq<Registration<T>>) {
    forall i, j :: 0 <= i < |regs| && 0 <= j < |regs| && Extends(regs[i].path, regs[j].path) ==> regs[i].path == regs[j].path
  }

  /** No registered name goes on below p. */
  ghost predicate Outermost<T>(regs: seq<Registration<T>>, p: Path) {
    forall i :: 0 <= i < |regs| && Extends(regs[i].path, p) ==> regs[i].path == p
  }

  ghost predicate CoveredBy<T>(regs: seq<Registration<T>>, p: Path) {
    exists i :: 0 <= i < |regs| && Extends(regs[i].path, p)
  }

  /** The tree's nodes are exactly the prefixes of the registered names. */
  lemma {:induction false} NodesArePrefixes<T>(regs: seq<Registration<T>>, p: Path)
    ensures p in Registered(regs) <==> p != [] && CoveredBy(regs, p)
    decreases |regs|
  {
    if regs != [] {
      var n := |regs| - 1;
      NodesArePrefixes(regs[..n], p);
      RegisterAt(Registered(regs[..n]), regs[n].path, 0, Some(regs[n].value), p);
      assert CoveredBy(regs, p) <==> CoveredBy(regs[..n], p) || Extends(regs[n].path, p) by {
        if i :| 0 <= i < |regs[..n]| && Extends(regs[..n][i].path, p) {
          assert regs[i] == regs[..n][i];
        }
        if i :| 0 <= i < |regs| && Extends(regs[i].path, p) {
          assert i < n ==> regs[..n][i] == regs[i];
        }
      }
    }
  }

  lemma RegisteredClosed<T>(regs: seq<Registration<T>>)
    ensures Closed(Registered(regs).Keys)
  {
    NodesArePrefixes(regs, []);
    forall p, k | p in Registered(regs) && 0 < k <= |p| ensures p[..k] in Registered(regs) {
      NodesArePrefixes(regs, p);
      NodesArePrefixes(regs, p[..k]);
      var i :| 0 <= i < |regs| && Extends(regs[i].path, p);
      assert Extends(p, p[..k]);
      ExtendsTransitive(regs[i].path, p, p[..k]);
    }
  }

  /** The first registration decides the first top-level node, and the top-level nodes are those listed. */
  lemma {:induction false} RootsAre<T>(regs: seq<Registration<T>>, k: nat)
    requires NonEmptyPaths(regs)
    ensures k in RegisteredRoots(regs) <==> exists i :: 0 <= i < |regs| && regs[i].path[0] == k
    ensures regs != [] ==> RegisteredRoots(regs) != [] && RegisteredRoots(regs)[0] == regs[0].path[0]
    decreases |regs|
  {
    if regs != [] {
      var n := |regs| - 1;
      RootsAre(regs[..n], k);
      assert forall i :: 0 <= i < n ==> regs[..n][i] == regs[i];
      assert n == 0 ==> RegisteredRoots(regs[..n]) == [];
      if i :| 0 <= i < |regs| && regs[i].path[0] == k {
        assert i < n ==> regs[..n][i].path[0] == k;
      }
    }
  }

  lemma RootsListed<T>(regs: seq<Registration<T>>)
    requires NonEmptyPaths(regs)
    ensures ListsRoots(RegisteredNames(regs))
  {
    var names := RegisteredNames(regs);
    hide RegisteredRoots, Registered;
    forall k: nat ensures k in names.roots <==> [k] in names.keys {
      RootsAre(regs, k);
      NodesArePrefixes(regs, [k]);
      forall i | 0 <= i < |regs| ensures regs[i].path[0] == k <==> Extends(regs[i].path, [k]) {
        assert regs[i].path[..1] == [regs[i].path[0]];
      }
    }
  }

  /** The leaves are exactly the registered names below which no other is registered. */
  lemma LeavesAreOutermost<T>(regs: seq<Registration<T>>, p: Path)
    requires NonEmptyPaths(regs)
    ensures IsLeaf(Registered(regs).Keys, p) <==> Outermost(regs, p) && exists i :: 0 <= i < |regs| && regs[i].path == p
  {
    hide Registered;
    NodesArePrefixes(regs, p);
    if IsLeaf(Registered(regs).Keys, p) {
      forall i | 0 <= i < |regs| && Extends(regs[i].path, p) ensures regs[i].path == p {
        NodesArePrefixes(regs, regs[i].path);
        assert Extends(regs[i].path, regs[i].path);
      }
    }
    if i :| Outermost(regs, p) && 0 <= i < |regs| && regs[i].path == p {
      OutermostIsLeaf(regs, i);
    }
  }

  lemma OutermostIsLeaf<T>(regs: seq<Registration<T>>, i: nat)
    requires NonEmptyPaths(regs) && i < |regs| && Outermost(regs, regs[i].path)
    ensures IsLeaf(Registered(regs).Keys, regs[i].path)
  {
    hide Registered;
    var p := regs[i].path;
    assert Extends(p, p);
    NodesArePrefixes(regs, p);
    forall q | q in Registered(regs).Keys && Extends(q, p) ensures q == p {
      NodesArePrefixes(regs, q);
      var j :| 0 <= j < |regs| && Extends(regs[j].path, q);
      ExtendsTransitive(regs[j].path, q, p);
      ExtendsBoth(p, q);
    }
  }

  lemma ExtendsBoth(p: Path, q: Path)
    requires Extends(p, q) && Extends(q, p)
    ensures p == q
  {
    assert p[..|q|] == q && q[..|p|] == p;
  }

  /** Without proper prefixes the leaves are exactly the registered names. */
  lemma LeavesAreRegistered<T>(regs: seq<Registration<T>>, p: Path)
    requires NonEmptyPaths(regs) && PrefixFree(regs)
    ensures IsLeaf(Registered(regs).Keys, p) <==> exists i :: 0 <= i < |regs| && regs[i].path == p
  {
    hide Registered, IsLeaf;
    LeavesAreOutermost(regs, p);
  }

  /** The first registration of a name decides its value; a later one for the same name changes nothing. */
  lemma {:induction false} FirstRegistrationWins<T>(regs: seq<Registration<T>>, i: nat)
    requires NonEmptyPaths(regs) && i < |regs| && Outermost(regs, regs[i].path)
    requires forall j :: 0 <= j < i ==> regs[j].path != regs[i].path
    ensures regs[i].path in Registered(regs) && Registered(regs)[regs[i].path] == Some(regs[i].value)
    decreases |regs|
  {
    var n := |regs| - 1;
    var p := regs[i].path;
    RegisterAt(Registered(regs[..n]), regs[n].path, 0, Some(regs[n].value), p);
    assert forall j :: 0 <= j < n ==> regs[..n][j] == regs[j];
    if i < n {
      FirstRegistrationWins(regs[..n], i);
    } else {
      NodesArePrefixes(regs[..n], p);
      forall j | 0 <= j < n ensures !Extends(regs[..n][j].path, p) {
        assert regs[..n][j] == regs[j];
      }
      assert p[..|p|] == p;
    }
  }

  /** Lookups answer with the first value registered for the name. */
  lemma LookupFindsFirst<T>(regs: seq<Registration<T>>, i: nat)
    requires NonEmptyPaths(regs) && i < |regs| && Outermost(regs, regs[i].path)
    requires forall j :: 0 <= j < i ==> regs[j].path != regs[i].path
    ensures Lookup(Registered(regs), Split(Join(regs[i].path))) == Some(Some(regs[i].value))
  {
    RegisteredClosed(regs);
    FirstRegistrationWins(regs, i);
    LookupIsMap(Registered(regs), regs[i].path);
  }

  /** No answer of a walk comes twice. */
  lemma AnswersDistinct(keys: set<Path>, q: Path, answers: seq<string>, fs: seq<Path>)
    requires Visits(keys, q, answers, fs) && Finished(answers)
    ensures forall j, k :: 0 <= j < k < |answers| ==> answers[j] != answers[k]
  {
    hide Join, IsLeaf;
    forall j, k | 0 <= j < k < |answers| ensures answers[j] != answers[k] {
      if k < |fs| {
        LessAsymmetric(fs[j], fs[k]);
        if answers[j] == answers[k] {
          JoinInjective(fs[j], fs[k]);
        }
      } else if fs[j] != [] {
        JoinNonEmpty(fs[j]);
      }
    }
  }

  /** Whether a walk that visits these leaves reports a registered name. */
  lemma AnswersInclude<T>(regs: seq<Registration<T>>, q: Path, answers: seq<string>, fs: seq<Path>, i: nat)
    requires NonEmptyPaths(regs) && PrefixFree(regs) && i < |regs|
    requires Visits(Registered(regs).Keys, q, answers, fs) && Finished(answers)
    ensures Join(regs[i].path) in answers <==> Less(q, regs[i].path) && SameTop(q, regs[i].path)
  {
    hide Join, IsLeaf, Less, PrefixFree, Registered;
    var p := regs[i].path;
    LeavesAreRegistered(regs, p);
    JoinNonEmpty(p);
    if Less(q, p) && SameTop(q, p) {
      var k :| 0 <= k < |fs| && fs[k] == p;
      assert answers[k] == Join(fs[k]);
    } else if k :| 0 <= k < |answers| && answers[k] == Join(p) {
      assert k < |fs|;
      JoinInjective(fs[k], p);
    }
  }

  lemma AnswersRegistered<T>(regs: seq<Registration<T>>, q: Path, answers: seq<string>, fs: seq<Path>, k: nat)
    requires NonEmptyPaths(regs) && PrefixFree(regs)
    requires Visits(Registered(regs).Keys, q, answers, fs) && k < |fs|
    ensures exists i :: 0 <= i < |regs| && answers[k] == Join(regs[i].path)
  {
    hide Join, IsLeaf, Less, NonEmptyPaths, PrefixFree, Registered;
    LeavesAreRegistered(regs, fs[k]);
    var i :| 0 <= i < |regs| && regs[i].path == fs[k];
  }

  /** From every name in the tree there is a walk that stops, and it reports exactly the registered names
      above it in its top-level tree, each once. */
  lemma WalkReportsRegistrations<T>(regs: seq<Registration<T>>, q: Path) returns (answers: seq<string>)
    requires NonEmptyPaths(regs) && PrefixFree(regs) && q in Registered(regs)
    ensures IsWalk(RegisteredNames(regs), Join(q), answers) && Finished(answers)
    ensures forall i :: 0 <= i < |regs| ==>
              (Join(regs[i].path) in answers <==> Less(q, regs[i].path) && SameTop(q, regs[i].path))
    ensures forall k :: 0 <= k < |answers| - 1 ==> exists i :: 0 <= i < |regs| && answers[k] == Join(regs[i].path)
    ensures forall j, k :: 0 <= j < k < |answers| ==> answers[j] != answers[k]
  {
    hide Join, Less, IsWalk, NonEmptyPaths, PrefixFree, Registered, SameTop;
    var keys := Registered(regs).Keys;
    RegisteredClosed(regs);
    answers := FinishedWalk(RegisteredNames(regs), q);
    var fs := WalkVisits(RegisteredNames(regs), q, answers);
    assert |fs| == |answers| - 1;
    hide Visits, Finished;
    AnswersDistinct(keys, q, answers, fs);
    forall i | 0 <= i < |regs|
      ensures Join(regs[i].path) in answers <==> Less(q, regs[i].path) && SameTop(q, regs[i].path)
    {
      AnswersInclude(regs, q, answers, fs, i);
    }
    forall k | 0 <= k < |answers| - 1 ensures exists i :: 0 <= i < |regs| && answers[k] == Join(regs[i].path) {
      AnswersRegistered(regs, q, answers, fs, k);
    }
    assert forall k :: 0 <= k < |answers| - 1 ==> exists i :: 0 <= i < |regs| && answers[k] == Join(regs[i].path);
  }
}
