/** The agent's mutable tree of object identifiers: nested child vectors kept sorted by index. */
module SnmpData {
  import opened OidText
  import opened OidOrder
  import opened Wrappers

  /** A node; `data` is what get_data returns, None for the nodes made on the way to a leaf. */
  class Node<T> {
    var oid: string
    var oidIdx: nat
    var children: seq<Node<T>>
    const data: Option<T>
    ghost var path: Path

    constructor (data: Option<T>)
      ensures this.data == data && children == [] && oidIdx == 0
    {
      this.data := data;
      oid, oidIdx, children, path := "", 0, [], [];
    }

    /** The index is read back from behind the last dot; without a dot it stays as it is. */
    method SetTreeData(oid: string, ghost path: Path)
      requires path != [] && oid == Join(path)
      modifies this`oid, this`oidIdx, this`path
      ensures this.oid == oid && this.path == path
      ensures oidIdx == if |path| == 1 then old(oidIdx) else path[|path| - 1]
    {
      hide Join;
      this.path := path;
      this.oid := oid;
      LastPart(path);
      LastComponent(path);
      var dot := RFindDot(oid);
      if dot > 0 {
        oidIdx := Atoi(oid[dot..]);
      }
    }
  }

  /** A node's index: a top-level node keeps the initial zero, whatever its component. */
  function Index(path: Path): nat
    requires path != []
  {
    if |path| == 1 then 0 else path[|path| - 1]
  }

  /** Start of the text behind the last dot. */
  function RFindDot(s: string): (k: nat)
    ensures k <= |s| && (forall i :: k <= i < |s| ==> s[i] != '.') && (k > 0 ==> s[k - 1] == '.')
  {
    if s == [] || s[|s| - 1] == '.' then |s| else RFindDot(s[..|s| - 1])
  }

  /** The text behind the last dot is the last component's. */
  lemma LastPart(path: Path)
    requires path != []
    ensures var s, d, k := Join(path), Digits(path[|path| - 1]), RFindDot(Join(path));
            && s[k..] == d && (k == 0 <==> |path| == 1)
            && (k > 0 ==> s[..k - 1] == Join(path[..|path| - 1]))
  {
    hide Digits, RFindDot, Join;
    var d := Digits(path[|path| - 1]);
    LastJoined(path);
    if |path| == 1 {
      RFindDotIs(d, 0);
    } else {
      BehindDot(Join(path[..|path| - 1]), d);
    }
  }

  lemma LastJoined(path: Path)
    requires path != []
    ensures var d := Digits(path[|path| - 1]);
            Join(path) == if |path| == 1 then d else Join(path[..|path| - 1]) + "." + d
  {
    hide Digits;
  }

  lemma BehindDot(head: string, d: string)
    requires forall i :: 0 <= i < |d| ==> d[i] != '.'
    ensures var s := head + "." + d;
            RFindDot(s) == |head| + 1 && s[|head| + 1..] == d && s[..|head|] == head
  {
    var s := head + "." + d;
    assert forall i :: |head| + 1 <= i < |s| ==> s[i] == d[i - |head| - 1];
    RFindDotIs(s, |head| + 1);
  }

  lemma {:induction false} RFindDotIs(s: string, n: nat)
    requires n <= |s| && (n > 0 ==> s[n - 1] == '.') && forall i :: n <= i < |s| ==> s[i] != '.'
    ensures RFindDot(s) == n
    decreases |s|
  {
    if n < |s| {
      RFindDotIs(s[..|s| - 1], n);
    }
  }

  lemma LastComponent(path: Path)
    requires path != []
    ensures Atoi(Join(path)[RFindDot(Join(path))..]) == path[|path| - 1]
  {
    hide Join, Digits;
    var d := Digits(path[|path| - 1]);
    LastPart(path);
    AtoiOfDigits(path[|path| - 1], []);
    assert d + [] == d;
  }

  lemma IndexOf(pre: Path, k: nat)
    ensures Index(pre + [k]) == if pre == [] then 0 else k
  {
  }

  // ----- the tree's shape, as values

  predicate StrictlySorted(s: seq<nat>) {
    forall i, j :: 0 <= i < j < |s| ==> s[i] < s[j]
  }

  ghost predicate ListsChildren(keys: set<Path>, kids: map<Path, seq<nat>>, p: Path)
    requires p in kids
  {
    forall k :: k in kids[p] <==> p + [k] in keys
  }

  /** Every node lists exactly its children and hangs below a listed parent; the lists are sorted, except
      the top-level one. */
  ghost predicate Shape(keys: set<Path>, kids: map<Path, seq<nat>>) {
    && [] !in keys
    && kids.Keys == keys + {[]}
    && (forall p :: p in kids && p != [] ==> StrictlySorted(kids[p]))
    && (forall p :: p in kids ==> ListsChildren(keys, kids, p))
    && (forall p :: p in keys ==> p[..|p| - 1] in kids)
  }

  lemma SortedList(keys: set<Path>, kids: map<Path, seq<nat>>, p: Path)
    requires Shape(keys, kids) && p in kids && p != []
    ensures StrictlySorted(kids[p])
  {
  }

  lemma {:induction false} PrefixInTree(keys: set<Path>, kids: map<Path, seq<nat>>, p: Path, k: nat)
    requires Shape(keys, kids) && p in keys && 0 < k <= |p|
    ensures p[..k] in keys
    decreases |p|
  {
    if k == |p| {
      assert p[..k] == p;
    } else {
      assert p[..|p| - 1][..k] == p[..k];
      PrefixInTree(keys, kids, p[..|p| - 1], k);
    }
  }

  lemma ShapeClosed(keys: set<Path>, kids: map<Path, seq<nat>>)
    requires Shape(keys, kids)
    ensures Closed(keys)
  {
    forall p, k | p in keys && 0 < k <= |p|
      ensures p[..k] in keys
    {
      PrefixInTree(keys, kids, p, k);
    }
  }

  function Inserted(s: seq<nat>, i: nat, k: nat): seq<nat>
    requires i <= |s|
  {
    s[..i] + [k] + s[i..]
  }

  function WithChild(kids: map<Path, seq<nat>>, p: Path, i: nat, k: nat): map<Path, seq<nat>>
    requires p in kids && i <= |kids[p]|
  {
    kids[p := Inserted(kids[p], i, k)][p + [k] := []]
  }

  lemma InsertedLists(keys: set<Path>, kids: map<Path, seq<nat>>, p: Path, i: nat, k: nat, q: Path)
    requires Shape(keys, kids) && p in kids && p + [k] !in kids && i <= |kids[p]|
    requires q in kids || q == p + [k]
    ensures ListsChildren(keys + {p + [k]}, WithChild(kids, p, i, k), q)
  {
    var c := p + [k];
    assert c != p;
    forall j ensures q + [j] == c <==> q == p && j == k {
      assert (q + [j])[..|q|] == q && c[..|p|] == p;
    }
    if q == c {
      forall j ensures c + [j] !in keys {
        assert (c + [j])[..|c + [j]| - 1] == c;
      }
    } else {
      assert ListsChildren(keys, kids, q);
      assert forall j :: j in Inserted(kids[p], i, k) <==> j in kids[p] || j == k;
    }
  }

  lemma InsertedSorted(s: seq<nat>, i: nat, k: nat)
    requires StrictlySorted(s) && i <= |s|
    requires (forall j :: 0 <= j < i ==> s[j] < k) && (forall j :: i <= j < |s| ==> k < s[j])
    ensures StrictlySorted(Inserted(s, i, k))
  {
  }

  lemma InsertedShape(keys: set<Path>, kids: map<Path, seq<nat>>, p: Path, i: nat, k: nat)
    requires Shape(keys, kids) && p in kids && p + [k] !in keys && i <= |kids[p]|
    requires p != [] ==> forall j :: 0 <= j < i ==> kids[p][j] < k
    requires p != [] ==> forall j :: i <= j < |kids[p]| ==> k < kids[p][j]
    ensures Shape(keys + {p + [k]}, WithChild(kids, p, i, k))
  {
    var c := p + [k];
    var keys2, kids2 := keys + {c}, WithChild(kids, p, i, k);
    assert c[..|c| - 1] == p;
    if p != [] { InsertedSorted(kids[p], i, k); }
    forall q | q in kids2 ensures ListsChildren(keys2, kids2, q) {
      InsertedLists(keys, kids, p, i, k, q);
    }
  }

  /** A vector holds, in order, the nodes of the listed children. */
  ghost predicate VecOk<T>(nodes: map<Path, Node<T>>, p: Path, list: seq<nat>, vec: seq<Node<T>>) {
    && |vec| == |list|
    && forall i :: 0 <= i < |list| ==> p + [list[i]] in nodes && vec[i] == nodes[p + [list[i]]]
  }

  lemma InsertedVec<T>(nodes: map<Path, Node<T>>, p: Path, list: seq<nat>, vec: seq<Node<T>>, i: nat, k: nat,
                       temp: Node<T>)
    requires VecOk(nodes, p, list, vec) && i <= |list| && p + [k] !in nodes
    ensures VecOk(nodes[p + [k] := temp], p, Inserted(list, i, k), vec[..i] + [temp] + vec[i..])
  {
  }

  lemma OtherVec<T>(nodes: map<Path, Node<T>>, p: Path, list: seq<nat>, vec: seq<Node<T>>, c: Path, temp: Node<T>)
    requires VecOk(nodes, p, list, vec) && c !in nodes
    ensures VecOk(nodes[c := temp], p, list, vec)
  {
  }

  lemma SlotOrder(list: seq<nat>, i: nat, k: nat)
    requires StrictlySorted(list) && i <= |list| && k !in list
    requires (i < |list| ==> k < list[i]) && forall j :: 0 <= j < i ==> list[j] <= k
    ensures (forall j :: 0 <= j < i ==> list[j] < k) && forall j :: i <= j < |list| ==> k < list[j]
  {
  }

  lemma KidsAfter(kids: map<Path, seq<nat>>, p: Path, i: nat, k: nat)
    requires p in kids && i <= |kids[p]| && p + [k] !in kids
    ensures WithChild(kids, p, i, k).Keys == kids.Keys + {p + [k]}
    ensures WithChild(kids, p, i, k)[p + [k]] == []
    ensures WithChild(kids, p, i, k)[p] == Inserted(kids[p], i, k)
    ensures forall q :: q in kids && q != p ==> WithChild(kids, p, i, k)[q] == kids[q]
  {
    assert p + [k] != p;
  }

  lemma EmptyVec<T>(nodes: map<Path, Node<T>>, p: Path, vec: seq<Node<T>>)
    requires vec == []
    ensures VecOk(nodes, p, [], vec)
  {
  }

  /** The tree as values: the node at each path, its children's indices, and its child vector. */
  datatype Layout<T> = Layout(nodes: map<Path, Node<T>>, kids: map<Path, seq<nat>>, vecs: map<Path, seq<Node<T>>>) {
    ghost predicate Ok() {
      && Shape(nodes.Keys, kids)
      && kids.Keys == vecs.Keys
      && forall q :: q in kids ==> VecOk(nodes, q, kids[q], vecs[q])
    }

    /** With a new leaf in slot i of p's vector. */
    ghost function With(p: Path, i: nat, k: nat, temp: Node<T>): Layout<T>
      requires p in kids && p in vecs && i <= |kids[p]| && i <= |vecs[p]|
    {
      Layout(nodes[p + [k] := temp], WithChild(kids, p, i, k),
             vecs[p := vecs[p][..i] + [temp] + vecs[p][i..]][p + [k] := []])
    }

    lemma WithVecs(p: Path, i: nat, k: nat, temp: Node<T>)
      requires Ok() && p in kids && i <= |kids[p]| && |vecs[p]| == |kids[p]| && p + [k] !in kids
      ensures forall q :: q in With(p, i, k, temp).kids ==>
                VecOk(With(p, i, k, temp).nodes, q, With(p, i, k, temp).kids[q], With(p, i, k, temp).vecs[q])
    {
      hide VecOk, WithChild, Inserted, Shape;
      var c, l := p + [k], With(p, i, k, temp);
      KidsAfter(kids, p, i, k);
      KeysOk();
      forall q | q in l.kids ensures VecOk(l.nodes, q, l.kids[q], l.vecs[q]) {
        if q == c {
          EmptyVec(l.nodes, q, l.vecs[q]);
        } else if q == p {
          InsertedVec(nodes, q, kids[q], vecs[q], i, k, temp);
        } else {
          OtherVec(nodes, q, kids[q], vecs[q], c, temp);
        }
      }
    }

    /** l is this layout with a new leaf c in slot i of pre's vector, and nothing else changed. */
    ghost predicate TakesIn(l: Layout<T>, pre: Path, c: Path, i: nat, temp: Node<T>) {
      && l.nodes == nodes[c := temp] && c !in nodes && c != pre && c != []
      && pre in vecs && i <= |vecs[pre]|
      && l.vecs.Keys == vecs.Keys + {c} && l.vecs[c] == []
      && l.vecs[pre] == vecs[pre][..i] + [temp] + vecs[pre][i..]
      && forall q :: q in vecs && q != pre ==> l.vecs[q] == vecs[q]
    }

    lemma WithFacts(p: Path, i: nat, k: nat, temp: Node<T>)
      requires Ok() && p in kids && i <= |kids[p]| && i <= |vecs[p]| && p + [k] !in nodes
      ensures TakesIn(With(p, i, k, temp), p, p + [k], i, temp)
      ensures With(p, i, k, temp).nodes == nodes[p + [k] := temp]
    {
      hide VecOk, WithChild, Shape;
      KeysOk();
      assert p + [k] != p && p + [k] != [] && p + [k] !in vecs;
    }

    lemma WithRoots(p: Path, i: nat, k: nat, temp: Node<T>)
      requires Ok() && p in kids && i <= |kids[p]| && i <= |vecs[p]| && p + [k] !in nodes
      requires p == [] ==> i == |kids[p]|
      ensures var l := With(p, i, k, temp);
              [] in l.kids && l.kids[[]] == if p == [] then kids[[]] + [k] else kids[[]]
    {
      hide VecOk, Shape;
      KeysOk();
      assert p + [k] != [];
    }

    lemma KeysOk()
      requires Ok()
      ensures kids.Keys == vecs.Keys == nodes.Keys + {[]} && [] !in nodes
    {
    }

    lemma KidsOf(p: Path)
      requires Ok() && p in kids
      ensures Closed(nodes.Keys) && ListsChildren(nodes.Keys, kids, p)
    {
      ShapeClosed(nodes.Keys, kids);
    }

    lemma SortedKids(p: Path)
      requires Ok() && p in kids && p != []
      ensures Closed(nodes.Keys) && StrictlySorted(kids[p]) && ListsChildren(nodes.Keys, kids, p)
    {
      ShapeClosed(nodes.Keys, kids);
    }

    lemma LeastKid(p: Path)
      requires p in kids && kids[p] != [] && StrictlySorted(kids[p]) && ListsChildren(nodes.Keys, kids, p)
      ensures p + [kids[p][0]] in nodes && forall j :: p + [j] in nodes.Keys ==> kids[p][0] <= j
    {
      assert kids[p][0] in kids[p];
      forall j | p + [j] in nodes.Keys ensures kids[p][0] <= j {
        assert j in kids[p];
      }
    }

    /** The first child leads to the first leaf. */
    lemma FirstKid(p: Path)
      requires Ok() && p in kids && kids[p] != [] && p != []
      ensures Below(nodes.Keys, p + [kids[p][0]]) < Below(nodes.Keys, p)
      ensures forall f :: IsFirstLeaf(nodes.Keys, p + [kids[p][0]], f) ==> IsFirstLeaf(nodes.Keys, p, f)
    {
      hide Layout.Ok, IsFirstLeaf, Closed, Extends, ListsChildren, StrictlySorted;
      SortedKids(p);
      LeastKid(p);
      var k := kids[p][0];
      BelowShrinks(nodes.Keys, p, k);
      forall f | IsFirstLeaf(nodes.Keys, p + [k], f) ensures IsFirstLeaf(nodes.Keys, p, f) {
        FirstChild(nodes.Keys, p, k, f);
      }
    }

    lemma NoKids(p: Path)
      requires Ok() && p in nodes && p in kids && kids[p] == []
      ensures IsLeaf(nodes.Keys, p)
    {
      KidsOf(p);
      forall k ensures p + [k] !in nodes {
        assert k !in kids[p];
      }
      forall q | q in nodes && Extends(q, p) ensures q == p {
        if q != p {
          StepDown(nodes.Keys, p, q);
        }
      }
    }

    /** The branch the search keeps: at each level the node above (none at the top) and the position
        taken among its children. */
    predicate IsBranch(branch: seq<(Node?<T>, int)>, l: Path) {
      && |branch| <= |l|
      && forall k :: 0 <= k < |branch| ==>
           && (branch[k].0 == null <==> k == 0)
           && l[..k] in kids && 0 <= branch[k].1 < |kids[l[..k]]| && kids[l[..k]][branch[k].1] == l[k]
           && (k > 0 ==> l[..k] in nodes && branch[k].0 == nodes[l[..k]])
    }

    lemma BranchGrows(branch: seq<(Node?<T>, int)>, l: Path, cur: Node?<T>, i: int)
      requires IsBranch(branch, l) && |branch| == |l| && l in kids && 0 <= i < |kids[l]|
      requires (cur == null <==> l == []) && (cur != null ==> l in nodes && nodes[l] == cur)
      ensures IsBranch(branch + [(cur, i)], l + [kids[l][i]])
    {
      var l2 := l + [kids[l][i]];
      assert l2[..|l|] == l && l[..|l|] == l;
      forall k | 0 <= k < |l| ensures l2[..k] == l[..k] && l2[k] == l[k] {
      }
    }

    /** The next child at level k leads to the successor. */
    lemma NextKid(l: Path, k: nat, i: nat, f: Path)
      requires Ok() && l in nodes && 0 < k < |l| && PassedUpTo(nodes.Keys, l, k + 1)
      requires l[..k] in kids && i + 1 < |kids[l[..k]]| && kids[l[..k]][i] == l[k]
      requires IsFirstLeaf(nodes.Keys, l[..k] + [kids[l[..k]][i + 1]], f)
      ensures IsNearSuccessor(nodes.Keys, l, f)
    {
      var m := l[..k];
      SortedKids(m);
      var j := kids[m][i + 1];
      assert j in kids[m];
      NothingBetween(m, i);
      hide Closed, PassedUpTo, IsFirstLeaf, IsSuccessor, IsNearSuccessor, Layout.Ok, Extends, StrictlySorted, ListsChildren;
      NextSibling(nodes.Keys, l, k, j, f);
    }

    lemma NothingBetween(p: Path, i: nat)
      requires p in kids && i + 1 < |kids[p]| && StrictlySorted(kids[p]) && ListsChildren(nodes.Keys, kids, p)
      ensures kids[p][i] < kids[p][i + 1]
      ensures forall j :: p + [j] in nodes.Keys ==> j <= kids[p][i] || kids[p][i + 1] <= j
    {
      forall j | p + [j] in nodes.Keys ensures j <= kids[p][i] || kids[p][i + 1] <= j {
        assert j in kids[p];
      }
    }

    /** No next child at level k: everything below that level's parent has been passed. */
    lemma LastKid(l: Path, k: nat, i: nat)
      requires Ok() && l in nodes && 0 < k < |l| && PassedUpTo(nodes.Keys, l, k + 1)
      requires l[..k] in kids && i + 1 == |kids[l[..k]]| && kids[l[..k]][i] == l[k]
      ensures PassedUpTo(nodes.Keys, l, k)
    {
      var m := l[..k];
      SortedKids(m);
      hide Closed, PassedUpTo, IsFirstLeaf, IsSuccessor, Layout.Ok, Extends;
      forall j | m + [j] in nodes.Keys ensures j <= l[k] {
        assert j in kids[m];
      }
      NoSibling(nodes.Keys, l, k);
    }

    lemma WithKeys(p: Path, i: nat, k: nat, temp: Node<T>)
      requires Ok() && p in kids && i <= |kids[p]| && i <= |vecs[p]| && p + [k] !in nodes
      ensures var l := With(p, i, k, temp);
              && l.nodes.Keys == nodes.Keys + {p + [k]} && l.kids == WithChild(kids, p, i, k) && l.kids.Keys == l.vecs.Keys
    {
      hide VecOk, WithChild, Shape;
      KeysOk();
      KidsAfter(kids, p, i, k);
    }

    lemma WithOk(p: Path, i: nat, k: nat, temp: Node<T>)
      requires Ok() && p in kids && i <= |kids[p]| && |vecs[p]| == |kids[p]| && p + [k] !in nodes
      requires p != [] ==> forall j :: 0 <= j < i ==> kids[p][j] < k
      requires p != [] ==> forall j :: i <= j < |kids[p]| ==> k < kids[p][j]
      ensures With(p, i, k, temp).Ok()
    {
      hide VecOk, WithChild, Inserted, Shape, Layout.With;
      KeysOk();
      WithKeys(p, i, k, temp);
      WithVecs(p, i, k, temp);
      InsertedShape(nodes.Keys, kids, p, i, k);
    }
  }

  function EntriesOf<T>(nodes: map<Path, Node<T>>): map<Path, Option<T>> {
    map p | p in nodes :: nodes[p].data
  }

  lemma EntriesKeys<T>(nodes: map<Path, Node<T>>)
    ensures EntriesOf(nodes).Keys == nodes.Keys
  {
  }

  lemma EntriesAdd<T>(nodes: map<Path, Node<T>>, c: Path, n: Node<T>)
    ensures EntriesOf(nodes[c := n]) == EntriesOf(nodes)[c := n.data]
  {
  }

  // ----- the tree object

  class SnmpData<T> {
    var data: seq<Node<T>>
    ghost var tree: Layout<T>
    ghost var repr: set<Node<T>>

    static ghost predicate Named(n: Node<T>, p: Path)
      reads n`path, n`oid, n`oidIdx
    {
      p != [] && n.path == p && n.oid == Join(p) && n.oidIdx == Index(p)
    }

    static ghost predicate AllNamed(nodes: map<Path, Node<T>>, repr: set<Node<T>>)
      reads repr`path, repr`oid, repr`oidIdx
    {
      forall p :: p in nodes ==> nodes[p] in repr && Named(nodes[p], p)
    }

    static ghost predicate AllFilled(l: Layout<T>, repr: set<Node<T>>)
      reads repr`children
    {
      forall p :: p in l.nodes ==> l.nodes[p] in repr && p in l.vecs && l.nodes[p].children == l.vecs[p]
    }

    ghost predicate Valid()
      reads this, repr
    {
      && tree.Ok()
      && data == tree.vecs[[]]
      && AllNamed(tree.nodes, repr)
      && AllFilled(tree, repr)
    }

    /** The map from identifiers to what was registered for them. */
    ghost function Entries(): map<Path, Option<T>>
      reads this
    {
      EntriesOf(tree.nodes)
    }

    /** The first components registered, in the order of their first registration. */
    ghost function Roots(): seq<nat>
      reads this
    {
      if [] in tree.kids then tree.kids[[]] else []
    }

    ghost function Listing(): Directory
      reads this
    {
      Directory(tree.nodes.Keys, Roots())
    }

    constructor ()
      ensures Valid() && Entries() == map[] && repr == {} && Roots() == []
    {
      data := [];
      tree := Layout(map[], map[[] := []], map[[] := []]);
      repr := {};
    }

    /** Where a new index belongs: in front of the first greater one. */
    static method FindSlot(lut: seq<Node<T>>, idx: nat) returns (i: nat)
      ensures i <= |lut| && (i < |lut| ==> idx < lut[i].oidIdx)
      ensures forall j :: 0 <= j < i ==> lut[j].oidIdx <= idx
    {
      i := 0;
      while i < |lut| && !(idx < lut[i].oidIdx)
        invariant i <= |lut|
        invariant forall j :: 0 <= j < i ==> lut[j].oidIdx <= idx
      {
        i := i + 1;
      }
    }

    lemma VecIndex(p: Path, i: nat)
      requires Valid() && p in tree.kids && i < |tree.kids[p]|
      ensures |tree.vecs[p]| == |tree.kids[p]|
      ensures tree.vecs[p][i].oidIdx == if p == [] then 0 else tree.kids[p][i]
    {
      assert VecOk(tree.nodes, p, tree.kids[p], tree.vecs[p]);
      var c := p + [tree.kids[p][i]];
      assert Named(tree.nodes[c], c);
    }

    /** A slot among the child nodes is a slot among the listed indices; at the top, where all indices
        are zero, it is always the last. */
    lemma SlotInTree(pre: Path, k: nat, i: nat)
      requires Valid() && pre in tree.kids && pre + [k] !in tree.nodes
      requires pre in tree.vecs && i <= |tree.vecs[pre]|
      requires i < |tree.vecs[pre]| ==> Index(pre + [k]) < tree.vecs[pre][i].oidIdx
      requires forall j :: 0 <= j < i ==> tree.vecs[pre][j].oidIdx <= Index(pre + [k])
      ensures |tree.vecs[pre]| == |tree.kids[pre]|
      ensures pre == [] ==> i == |tree.kids[pre]|
      ensures pre != [] ==> forall j :: 0 <= j < i ==> tree.kids[pre][j] < k
      ensures pre != [] ==> forall j :: i <= j < |tree.kids[pre]| ==> k < tree.kids[pre][j]
    {
      hide Valid, Index;
      IndexOf(pre, k);
      NodeVec(pre);
      if pre == [] {
        RootIndices(i);
      } else {
        ChildIndices(pre, k);
        SlotOrder(tree.kids[pre], i, k);
      }
    }

    lemma NodeVec(pre: Path)
      requires Valid() && pre in tree.kids
      ensures pre in tree.vecs && |tree.vecs[pre]| == |tree.kids[pre]|
    {
      assert VecOk(tree.nodes, pre, tree.kids[pre], tree.vecs[pre]);
    }

    lemma RootIndices(i: nat)
      requires Valid() && [] in tree.kids && i <= |tree.kids[[]]|
      ensures [] in tree.vecs && |tree.vecs[[]]| == |tree.kids[[]]| && (i < |tree.kids[[]]| ==> tree.vecs[[]][i].oidIdx == 0)
    {
      NodeVec([]);
      if i < |tree.kids[[]]| { VecIndex([], i); }
    }

    lemma ChildIndices(pre: Path, k: nat)
      requires Valid() && pre in tree.kids && pre != [] && pre + [k] !in tree.nodes
      ensures pre in tree.vecs && |tree.vecs[pre]| == |tree.kids[pre]|
      ensures forall j :: 0 <= j < |tree.kids[pre]| ==> tree.kids[pre][j] == tree.vecs[pre][j].oidIdx
      ensures StrictlySorted(tree.kids[pre]) && k !in tree.kids[pre]
    {
      NodeVec(pre);
      forall j | 0 <= j < |tree.kids[pre]| ensures tree.kids[pre][j] == tree.vecs[pre][j].oidIdx {
        VecIndex(pre, j);
      }
      assert ListsChildren(tree.nodes.Keys, tree.kids, pre);
      SortedList(tree.nodes.Keys, tree.kids, pre);
    }

    static lemma GrowNamed(nodes: map<Path, Node<T>>, repr: set<Node<T>>, c: Path, temp: Node<T>)
      requires AllNamed(nodes, repr) && Named(temp, c)
      ensures AllNamed(nodes[c := temp], repr + {temp})
    {
      hide Named;
    }

    /** A node sits at one path only. */
    static lemma OnlyAt(nodes: map<Path, Node<T>>, repr: set<Node<T>>, p: Path)
      requires AllNamed(nodes, repr)
      ensures forall q :: p in nodes && q in nodes && nodes[q] == nodes[p] ==> q == p
    {
      assert p in nodes ==> Named(nodes[p], p);
    }

    static lemma GrowFilled(was: Layout<T>, l: Layout<T>, repr: set<Node<T>>, c: Path, temp: Node<T>)
      requires l.nodes == was.nodes[c := temp] && c in l.vecs && l.vecs[c] == temp.children
      requires forall q :: q in was.nodes ==> was.nodes[q] in repr && q in l.vecs && (q != c ==> was.nodes[q].children == l.vecs[q])
      ensures AllFilled(l, repr + {temp})
    {
    }

    /** The vector insertion: cur's vector, and nothing else, takes in the new node. */
    method Attach(cur: Node?<T>, temp: Node<T>, i: nat, ghost was: Layout<T>, ghost l: Layout<T>, ghost pre: Path,
                  ghost c: Path)
      requires was.TakesIn(l, pre, c, i, temp)
      requires [] in was.vecs && [] !in was.nodes && data == was.vecs[[]]
      requires AllFilled(was, repr) && temp.children == [] && temp !in repr
      requires (cur == null <==> pre == []) && (cur != null ==> pre in was.nodes && was.nodes[pre] == cur)
      requires cur != null ==> forall q :: q in was.nodes && was.nodes[q] == cur ==> q == pre
      modifies this`data, (if cur == null then {} else {cur})`children
      ensures [] in l.vecs && data == l.vecs[[]] && AllFilled(l, repr + {temp})
    {
      if cur == null {
        data := data[..i] + [temp] + data[i..];
        assert forall q :: q in was.nodes ==> was.nodes[q].children == was.vecs[q];
      } else {
        assert cur.children == was.vecs[pre];
        cur.children := cur.children[..i] + [temp] + cur.children[i..];
      }
      GrowFilled(was, l, repr, c, temp);
    }

    /** Finds the slot among the children of the node at `pre`, and with it the tree to come. */
    method LocateSlot(cur: Node?<T>, temp: Node<T>, ghost pre: Path, ghost k: nat) returns (i: nat, ghost l: Layout<T>)
      requires Valid() && pre in tree.kids
      requires (cur == null <==> pre == []) && (cur != null ==> pre in tree.nodes && tree.nodes[pre] == cur)
      requires Named(temp, pre + [k]) && temp.path !in tree.nodes
      ensures l.Ok() && tree.TakesIn(l, pre, temp.path, i, temp)
      ensures [] in l.kids && l.kids[[]] == if pre == [] then tree.kids[[]] + [k] else tree.kids[[]]
      ensures l.nodes == tree.nodes[temp.path := temp] && AllNamed(l.nodes, repr + {temp})
    {
      hide Layout.Ok, Layout.With, Layout.TakesIn, Named, AllNamed, AllFilled, Index, Join;
      IndexOf(pre, k);
      TreeRoots(pre);
      NodeVec(pre);
      if cur != null { CurVec(pre); }
      var lut := if cur == null then data else cur.children;
      i := FindSlot(lut, temp.oidIdx);
      assert temp.oidIdx == Index(pre + [k]) && temp.path == pre + [k] by { NamedIs(temp, pre + [k]); }
      SlotInTree(pre, k, i);
      l := tree.With(pre, i, k, temp);
      GrowNamed(tree.nodes, repr, temp.path, temp);
      tree.WithOk(pre, i, k, temp);
      tree.WithFacts(pre, i, k, temp);
      tree.WithRoots(pre, i, k, temp);
    }

    static lemma NamedIs(n: Node<T>, p: Path)
      requires Named(n, p)
      ensures p != [] && n.oidIdx == Index(p) && n.path == p
    {
    }

    lemma CurVec(pre: Path)
      requires Valid() && pre in tree.nodes
      ensures pre in tree.vecs && tree.nodes[pre].children == tree.vecs[pre]
    {
    }

    lemma TreeRoots(pre: Path)
      requires Valid()
      ensures [] in tree.vecs && [] in tree.kids && [] !in tree.nodes && data == tree.vecs[[]]
      ensures AllFilled(tree, repr) && AllNamed(tree.nodes, repr)
      ensures forall q :: pre in tree.nodes && q in tree.nodes && tree.nodes[q] == tree.nodes[pre] ==> q == pre
    {
      tree.KeysOk();
      OnlyAt(tree.nodes, repr, pre);
    }

    method Insert(cur: Node?<T>, temp: Node<T>, ghost pre: Path, ghost k: nat)
      requires Valid() && pre in tree.kids
      requires (cur == null <==> pre == []) && (cur != null ==> pre in tree.nodes && tree.nodes[pre] == cur)
      requires temp !in repr && Named(temp, pre + [k]) && temp.path !in tree.nodes && temp.children == []
      modifies this, if cur == null then {} else {cur}
      ensures Valid() && tree.nodes == old(tree.nodes)[temp.path := temp] && repr == old(repr) + {temp}
      ensures Roots() == if pre == [] then old(Roots()) + [k] else old(Roots())
    {
      hide Layout.Ok, Layout.With, Layout.TakesIn, AllNamed, AllFilled, Named, Join;
      ghost var c := temp.path;
      var i, l := LocateSlot(cur, temp, pre, k);
      TreeRoots(pre);
      Attach(cur, temp, i, tree, l, pre, c);
      tree, repr := l, repr + {temp};
    }

    // ----- looking a name up

    static method FindOidInVector(vec: seq<Node<T>>, oid: string) returns (i: int)
      ensures -1 <= i < |vec| && (i >= 0 ==> vec[i].oid == oid)
      ensures i == -1 ==> forall j :: 0 <= j < |vec| ==> vec[j].oid != oid
    {
      i := 0;
      while i < |vec|
        invariant 0 <= i <= |vec|
        invariant forall j :: 0 <= j < i ==> vec[j].oid != oid
      {
        if vec[i].oid == oid {
          return;
        }
        i := i + 1;
      }
      i := -1;
    }

    lemma ChildNamed(pre: Path, part: string, i: nat)
      requires Valid() && pre in tree.kids && i < |tree.kids[pre]|
      ensures |tree.vecs[pre]| == |tree.kids[pre]|
      ensures var k := tree.kids[pre][i];
              && pre + [k] in tree.nodes && tree.vecs[pre][i] == tree.nodes[pre + [k]]
              && (tree.vecs[pre][i].oid == Label(pre, part) <==> part == Digits(k))
    {
      assert VecOk(tree.nodes, pre, tree.kids[pre], tree.vecs[pre]);
      var k := tree.kids[pre][i];
      assert Named(tree.nodes[pre + [k]], pre + [k]);
      LabelOfDigits(pre, k);
    }

    /** One step down: the child the next part of the name leads to, if there is one. */
    method FindChild(cur: Node?<T>, curOid: string, ghost pre: Path, ghost part: string) returns (idx: int)
      requires Valid() && pre in tree.kids && curOid == Label(pre, part)
      requires (cur == null <==> pre == []) && (cur != null ==> pre in tree.nodes && tree.nodes[pre] == cur)
      ensures pre in tree.vecs && -1 <= idx < |tree.vecs[pre]| && tree.vecs[pre] == (if cur == null then data else cur.children)
      ensures idx == -1 <==> !Continues(tree.nodes.Keys, pre, part)
      ensures idx != -1 ==> tree.vecs[pre][idx] == tree.nodes[pre + [Atoi(part)]] && tree.kids[pre][idx] == Atoi(part)
      ensures |tree.kids[pre]| == |tree.vecs[pre]|
    {
      tree.KeysOk();
      var lut := if cur == null then data else cur.children;
      assert lut == tree.vecs[pre];
      idx := FindOidInVector(lut, curOid);
      assert VecOk(tree.nodes, pre, tree.kids[pre], tree.vecs[pre]);
      assert ListsChildren(tree.nodes.Keys, tree.kids, pre);
      forall i | 0 <= i < |lut|
        ensures lut[i].oid == curOid <==> part == Digits(tree.kids[pre][i])
      {
        ChildNamed(pre, part, i);
      }
      if idx != -1 {
        AtoiDigits(tree.kids[pre][idx]);
      }
    }

    // ----- registering

    /** A node made for the next level is labelled and inserted. */
    method InsertChild(cur: Node?<T>, temp: Node<T>, curOid: string, ghost pre: Path, ghost k: nat)
      requires Valid() && pre in tree.kids && pre + [k] !in tree.nodes && curOid == Join(pre + [k])
      requires (cur == null <==> pre == []) && (cur != null ==> pre in tree.nodes && tree.nodes[pre] == cur)
      requires temp !in repr && temp.children == [] && temp.oidIdx == 0
      modifies this, temp, if cur == null then {} else {cur}
      ensures Valid() && tree.nodes == old(tree.nodes)[pre + [k] := temp] && repr == old(repr) + {temp}
      ensures Roots() == if pre == [] then old(Roots()) + [k] else old(Roots())
    {
      hide Valid, Join;
      CurInRepr(pre);
      temp.SetTreeData(curOid, pre + [k]);
      assert Named(temp, pre + [k]);
      hide Named;
      Insert(cur, temp, pre, k);
    }

    lemma CurInRepr(pre: Path)
      requires Valid()
      ensures pre in tree.nodes ==> tree.nodes[pre] in repr
      ensures tree.kids.Keys == tree.nodes.Keys + {[]}
    {
      tree.KeysOk();
    }

    /** The next level of a registration: follow the existing node, or make one and insert it. */
    method RegisterLevel(cur: Node?<T>, e: Node<T>, last: bool, curOid: string, part: string, ghost pre: Path,
                         ghost k: nat)
      returns (next: Node<T>)
      requires Valid() && pre in tree.kids && curOid == Join(pre + [k]) && part == Digits(k)
      requires (cur == null <==> pre == []) && (cur != null ==> pre in tree.nodes && tree.nodes[pre] == cur)
      requires e !in repr && e.children == [] && e.oidIdx == 0
      modifies this, repr, e
      ensures Valid() && pre + [k] in tree.nodes && tree.nodes[pre + [k]] == next
      ensures pre + [k] in old(tree.nodes) ==> tree == old(tree) && repr == old(repr)
      ensures pre + [k] !in old(tree.nodes) ==> fresh(next) || next == e
      ensures pre + [k] !in old(tree.nodes) ==> next.data == (if last then e.data else None)
      ensures pre + [k] !in old(tree.nodes) ==> tree.nodes == old(tree.nodes)[pre + [k] := next] && repr == old(repr) + {next}
      ensures pre + [k] !in old(tree.nodes) ==> Roots() == if pre == [] then old(Roots()) + [k] else old(Roots())
      ensures !last ==> e !in repr && e.children == [] && e.oidIdx == 0
    {
      hide Valid, Join, Digits, Atoi, Descend;
      CurInRepr(pre);
      LabelOfDigits(pre, k);
      AtoiDigits(k);
      var idx := FindChild(cur, curOid, pre, part);
      if idx == -1 {
        var temp := e;
        if !last {
          temp := new Node<T>(None);
        }
        InsertChild(cur, temp, curOid, pre, k);
        next := temp;
      } else {
        var lut := if cur == null then data else cur.children;
        next := lut[idx];
      }
    }

    /** A top-level node is there exactly if its component is listed. */
    lemma RootListed(k: nat)
      requires Valid()
      ensures k in Roots() <==> [k] in tree.nodes
    {
      tree.KeysOk();
      tree.KidsOf([]);
      assert [] + [k] == [k];
    }

    /** A dotted name and the value behind it enter the tree. */
    method RegisterOid(oid: string, e: Node<T>, ghost path: Path)
      requires Valid() && path != [] && oid == Join(path) && (forall i :: 0 <= i < |path| ==> path[i] < 0x8000_0000)
      requires e !in repr && e.children == [] && e.oidIdx == 0
      modifies this, repr, e
      ensures Roots() == WithRoot(old(Roots()), path[0])
      ensures Valid() && Entries() == Register(old(Entries()), path, 0, e.data)
    {
      hide Valid, Join, Digits, Split, Parts;
      var parts := SplitAtDots(oid);
      SplitJoin(path);
      PartsAt(path);
      JoinEmpty();
      CurInRepr([]);
      var cur: Node?<T> := null;
      var curOid := "";
      assert path[..0] == [];
      for i := 0 to |parts|
        invariant Valid() && path[..i] in tree.kids && curOid == Join(path[..i])
        invariant (cur == null <==> i == 0) && (cur != null ==> path[..i] in tree.nodes && tree.nodes[path[..i]] == cur)
        invariant i < |parts| ==> e !in repr && e.children == [] && e.oidIdx == 0
        invariant Roots() == if i == 0 then old(Roots()) else WithRoot(old(Roots()), path[0])
        invariant fresh(repr - old(repr) - {e})
        invariant Register(Entries(), path, i, e.data) == Register(old(Entries()), path, 0, e.data)
      {
        ghost var pre, k := path[..i], path[i];
        ghost var nodes := tree.nodes;
        assert path[..i + 1] == pre + [k];
        JoinStep(pre, k);
        if curOid != "" {
          curOid := curOid + ".";
        }
        curOid := curOid + parts[i];
        RootListed(k);
        assert i == 0 ==> pre + [k] == [k] == [path[0]];
        cur := RegisterLevel(cur, e, i + 1 == |parts|, curOid, parts[i], pre, k);
        EntriesAdd(nodes, pre + [k], cur);
        CurInRepr(pre + [k]);
      }
    }

    // ----- looking up one name

    /** The node a name leads to, if every part of it can be followed. */
    method FindByOid(oid: string) returns (r: Option<Option<T>>)
      requires Valid()
      ensures r == Lookup(Entries(), Split(oid))
    {
      hide Valid, Join, Digits, Atoi, Split;
      EntriesKeys(tree.nodes);
      var parts := SplitAtDots(oid);
      JoinEmpty();
      CurInRepr([]);
      var cur: Node?<T> := null;
      var curOid := "";
      ghost var pre: Path := [];
      r := None;
      for i := 0 to |parts|
        invariant pre in tree.kids && curOid == Join(pre) && |pre| == i && r == None
        invariant (cur == null <==> pre == []) && (cur != null ==> pre in tree.nodes && tree.nodes[pre] == cur)
        invariant Descend(tree.nodes.Keys, [], parts) == Descend(tree.nodes.Keys, pre, parts[i..])
        invariant i == |parts| ==> parts == []
      {
        JoinStep(pre, Atoi(parts[i]));
        if curOid != "" {
          curOid := curOid + ".";
        }
        curOid := curOid + parts[i];
        var idx := FindChild(cur, curOid, pre, parts[i]);
        assert parts[i..][0] == parts[i] && parts[i..][1..] == parts[i + 1..];
        if idx == -1 {
          break;
        }
        var lut := if cur == null then data else cur.children;
        if i == |parts| - 1 {
          assert parts[i + 1..] == [];
          assert Descend(tree.nodes.Keys, pre, parts[i..]) == pre + [Atoi(parts[i])];
          return Some(lut[idx].data);
        }
        cur := lut[idx];
        pre := pre + [Atoi(parts[i])];
        CurInRepr(pre);
      }
    }

    // ----- the next name

    lemma NodeAt(p: Path)
      requires Valid() && p in tree.nodes
      ensures p in tree.kids && p in tree.vecs && tree.nodes[p].children == tree.vecs[p] && |tree.vecs[p]| == |tree.kids[p]|
      ensures tree.nodes[p].oid == Join(p)
      ensures forall i :: 0 <= i < |tree.kids[p]| ==>
                p + [tree.kids[p][i]] in tree.nodes && tree.vecs[p][i] == tree.nodes[p + [tree.kids[p][i]]]
    {
      tree.KeysOk();
      assert VecOk(tree.nodes, p, tree.kids[p], tree.vecs[p]);
      assert Named(tree.nodes[p], p);
    }

    lemma RootVec()
      requires Valid()
      ensures [] in tree.kids && [] in tree.vecs && data == tree.vecs[[]] && |data| == |tree.kids[[]]|
      ensures forall i :: 0 <= i < |tree.kids[[]]| ==>
                [] + [tree.kids[[]][i]] in tree.nodes && data[i] == tree.nodes[[] + [tree.kids[[]][i]]]
      ensures tree.Ok() && [] !in tree.nodes
    {
      tree.KeysOk();
      assert VecOk(tree.nodes, [], tree.kids[[]], tree.vecs[[]]);
    }

    /** From a node down its first children to a leaf. */
    method DescendFirst(start: Node<T>, ghost p: Path) returns (element: Node<T>, ghost l: Path)
      requires Valid() && p in tree.nodes && tree.nodes[p] == start
      ensures l in tree.nodes && tree.nodes[l] == element && IsFirstLeaf(tree.nodes.Keys, p, l)
    {
      hide Valid, IsFirstLeaf, Layout.Ok;
      RootVec();
      element := start;
      l := p;
      NodeAt(l);
      while element.children != []
        invariant l in tree.nodes && tree.nodes[l] == element
        invariant forall f :: IsFirstLeaf(tree.nodes.Keys, l, f) ==> IsFirstLeaf(tree.nodes.Keys, p, f)
        decreases Below(tree.nodes.Keys, l)
      {
        NodeAt(l);
        tree.FirstKid(l);
        element := element.children[0];
        l := l + [tree.kids[l][0]];
      }
      NodeAt(l);
      tree.NoKids(l);
      LeafIsFirst(tree.nodes.Keys, l);
    }

    /** Back up the branch to the first level with a further sibling, and down from there. */
    method Climb(full: seq<(Node?<T>, int)>, leaf: Node<T>, ghost l: Path) returns (r: string)
      requires Valid() && l in tree.nodes && tree.nodes[l] == leaf && IsLeaf(tree.nodes.Keys, l)
      requires tree.IsBranch(full, l) && |full| == |l|
      requires |leaf.children| == 0
      ensures (r == "" && PassedUpTo(tree.nodes.Keys, l, 1))
              || exists f :: IsNearSuccessor(tree.nodes.Keys, l, f) && r == Join(f)
    {
      hide Valid, IsFirstLeaf, IsNearSuccessor, PassedUpTo, IsLeaf, Layout.Ok, Join;
      RootVec();
      NothingPassedYet(tree.nodes.Keys, l);
      var branch := full + [(leaf, 0)];
      while branch != []
        invariant (branch == full + [(leaf, 0)]) || (|branch| <= |l| && branch == full[..|branch|])
        invariant 0 < |branch| <= |l| ==> PassedUpTo(tree.nodes.Keys, l, |branch|)
        invariant branch != []
        decreases |branch|
      {
        var (element, index) := branch[|branch| - 1];
        ghost var k := |branch| - 1;
        if element == null {
          assert |branch| == 1;
          break;
        }
        branch := branch[..|branch| - 1];
        if index + 1 < |element.children| {
          NodeAt(l[..k]);
          element := element.children[index + 1];
          ghost var f;
          element, f := DescendFirst(element, l[..k] + [tree.kids[l[..k]][index + 1]]);
          tree.NextKid(l, k, index, f);
          NodeAt(f);
          return element.oid;
        }
        if 0 < k < |l| {
          NodeAt(l[..k]);
          tree.LastKid(l, k, index);
        }
      }
      r := "";
    }

    /** First part of the search: follow the name as far as it goes, keeping the branch. */
    method FollowName(oid: string) returns (cur: Node?<T>, branch: seq<(Node?<T>, int)>, ghost p: Path)
      requires Valid()
      ensures p == Descend(tree.nodes.Keys, [], Split(oid))
      ensures p in tree.kids && (cur == null <==> p == []) && (cur != null ==> p in tree.nodes && tree.nodes[p] == cur)
      ensures tree.IsBranch(branch, p) && |branch| == |p|
    {
      hide Valid, Join, Digits, Atoi, Split;
      var parts := SplitAtDots(oid);
      JoinEmpty();
      CurInRepr([]);
      var curOid := "";
      cur, branch, p := null, [], [];
      for i := 0 to |parts|
        invariant p in tree.kids && curOid == Join(p) && |p| == |branch| == i && tree.IsBranch(branch, p)
        invariant (cur == null <==> p == []) && (cur != null ==> p in tree.nodes && tree.nodes[p] == cur)
        invariant Descend(tree.nodes.Keys, [], parts) == Descend(tree.nodes.Keys, p, parts[i..])
      {
        JoinStep(p, Atoi(parts[i]));
        if curOid != "" {
          curOid := curOid + ".";
        }
        curOid := curOid + parts[i];
        var idx := FindChild(cur, curOid, p, parts[i]);
        assert parts[i..][0] == parts[i] && parts[i..][1..] == parts[i + 1..];
        if idx == -1 {
          break;
        }
        tree.BranchGrows(branch, p, cur, idx);
        branch := branch + [(cur, idx)];
        var lut := if cur == null then data else cur.children;
        cur := lut[idx];
        p := p + [Atoi(parts[i])];
        CurInRepr(p);
      }
    }

    /** Second part: on to the end of the branch, always taking the first child. */
    method FollowFirst(cur0: Node?<T>, branch0: seq<(Node?<T>, int)>, ghost p: Path)
      returns (cur: Node<T>, branch: seq<(Node?<T>, int)>, ghost l: Path)
      requires Valid() && data != []
      requires p in tree.kids && (cur0 == null <==> p == []) && (cur0 != null ==> p in tree.nodes && tree.nodes[p] == cur0)
      requires tree.IsBranch(branch0, p) && |branch0| == |p|
      ensures Roots() != [] && l in tree.nodes && tree.nodes[l] == cur && IsFirstLeaf(tree.nodes.Keys, Start(Roots(), p), l)
      ensures tree.IsBranch(branch, l) && |branch| == |l| > 0
    {
      hide Valid, IsFirstLeaf, Layout.Ok, Layout.IsBranch;
      RootVec();
      var at := cur0;
      branch, l := branch0, p;
      if at == null {
        tree.BranchGrows(branch, l, at, 0);
        branch := branch + [(at, 0)];
        at, l := data[0], l + [tree.kids[l][0]];
      }
      NodeAt(l);
      while at.children != []
        invariant l in tree.nodes && tree.nodes[l] == at && at != null
        invariant tree.IsBranch(branch, l) && |branch| == |l| > 0
        invariant forall f :: IsFirstLeaf(tree.nodes.Keys, l, f) ==> IsFirstLeaf(tree.nodes.Keys, Start(Roots(), p), f)
        decreases Below(tree.nodes.Keys, l)
      {
        NodeAt(l);
        tree.FirstKid(l);
        tree.BranchGrows(branch, l, at, 0);
        branch := branch + [(at, 0)];
        at, l := at.children[0], l + [tree.kids[l][0]];
      }
      NodeAt(l);
      tree.NoKids(l);
      LeafIsFirst(tree.nodes.Keys, l);
      cur := at;
    }

    /** The GETNEXT search.  Like the original it needs at least one registered name. */
    method FindNextOid(oid: string) returns (r: string)
      requires Valid() && data != []
      ensures Roots() != [] && NextAnswer(tree.nodes.Keys, Start(Roots(), Descend(tree.nodes.Keys, [], Split(oid))), oid, r)
    {
      hide Valid, Join, IsFirstLeaf, IsNearSuccessor, Layout.IsBranch, Descend, Split;
      var parent, branch, p := FollowName(oid);
      var leaf, full, l := FollowFirst(parent, branch, p);
      NodeAt(l);
      FirstIsLeaf(tree.nodes.Keys, Start(Roots(), p), l);
      if leaf.oid != oid {
        return leaf.oid;
      }
      LeafHasNoKids(l);
      r := Climb(full, leaf, l);
    }

    lemma LeafHasNoKids(l: Path)
      requires Valid() && l in tree.nodes && IsLeaf(tree.nodes.Keys, l)
      ensures |tree.nodes[l].children| == 0
    {
      NodeAt(l);
      if tree.kids[l] != [] {
        LeafBelowNode(tree.nodes.Keys, l, tree.kids[l][0]);
      }
    }
  }

  lemma FirstIsLeaf(keys: set<Path>, p: Path, l: Path)
    requires IsFirstLeaf(keys, p, l)
    ensures IsLeaf(keys, l)
  {
  }

  function WithRoot(roots: seq<nat>, k: nat): seq<nat> {
    if k in roots then roots else roots + [k]
  }

  /** What GETNEXT depends on: the names in the tree, and the order of the top-level ones. */
  datatype Directory = Directory(keys: set<Path>, roots: seq<nat>)

  /** Where the search goes down from: the longest known part of the name, or the first top-level node
      if nothing of it is known. */
  function Start(roots: seq<nat>, m: Path): Path
    requires m == [] ==> roots != []
  {
    if m == [] then [roots[0]] else m
  }

  /** What the search answers for a name whose longest known part leads to m: the first leaf below m,
      or, if that is the name itself, the leaf after it; nothing if no leaf with its first component is left. */
  ghost predicate NextAnswer(keys: set<Path>, m: Path, oid: string, r: string) {
    exists l :: IsFirstLeaf(keys, m, l) && AnswerFrom(keys, l, oid, r)
  }

  ghost predicate AnswerFrom(keys: set<Path>, l: Path, oid: string, r: string) {
    l != [] &&
    if Join(l) != oid then r == Join(l)
    else (r == "" && PassedUpTo(keys, l, 1)) || (exists f :: IsNearSuccessor(keys, l, f) && r == Join(f))
  }

  /** What a lookup by parts finds in a map from paths. */
  function Lookup<T>(m: map<Path, Option<T>>, parts: seq<string>): Option<Option<T>> {
    var d := Descend(m.Keys, [], parts);
    if d != [] && |d| == |parts| && d in m then Some(m[d]) else None
  }

  lemma JoinEmpty()
    ensures Join([]) == ""
  {
  }

  /** Appending a dot, unless the text is still empty, and the next part. */
  lemma JoinStep(pre: Path, k: nat)
    ensures pre == [] <==> Join(pre) == ""
    ensures Join(pre + [k]) == (if Join(pre) != "" then Join(pre) + "." else Join(pre)) + Digits(k)
    ensures forall part :: Label(pre, part) == (if Join(pre) != "" then Join(pre) + "." else Join(pre)) + part
  {
    if pre != [] {
      JoinNonEmpty(pre);
    }
    LabelOfDigits(pre, k);
  }

  /** One registration, level by level: missing nodes are made without data, the last one carries the
      value; a node that is already there stays as it is. */
  function Register<T>(m: map<Path, Option<T>>, path: Path, i: nat, v: Option<T>): map<Path, Option<T>>
    requires i <= |path|
    decreases |path| - i
  {
    if i == |path| then m
    else
      var q := path[..i + 1];
      Register(if q in m then m else m[q := if i + 1 == |path| then v else None], path, i + 1, v)
  }

  lemma {:induction false} PartsAt(p: Path)
    ensures |Parts(p)| == |p| && forall i :: 0 <= i < |p| ==> Parts(p)[i] == Digits(p[i])
    decreases |p|
  {
    if p != [] {
      PartsAt(p[1..]);
    }
  }

  function Label(pre: Path, part: string): string {
    if pre == [] then part else Join(pre) + "." + part
  }

  lemma LabelOfDigits(pre: Path, k: nat)
    ensures Join(pre + [k]) == Label(pre, Digits(k))
    ensures forall part :: Label(pre, part) == Label(pre, Digits(k)) ==> part == Digits(k)
  {
    assert (pre + [k])[..|pre|] == pre;
    var n := |Join(pre)| + 1;
    forall part | Label(pre, part) == Label(pre, Digits(k)) ensures part == Digits(k) {
      if pre != [] {
        assert Label(pre, part)[n..] == part && Label(pre, Digits(k))[n..] == Digits(k);
      }
    }
  }

  lemma AtoiDigits(k: nat)
    ensures Atoi(Digits(k)) == k
  {
    AtoiOfDigits(k, []);
    assert Digits(k) + [] == Digits(k);
  }

  /** The part is the canonical name of a child. */
  predicate Continues(keys: set<Path>, pre: Path, part: string) {
    part == Digits(Atoi(part)) && pre + [Atoi(part)] in keys
  }

  /** How far the parts of a name can be followed down the tree. */
  function Descend(keys: set<Path>, pre: Path, parts: seq<string>): Path
    decreases |parts|
  {
    if parts == [] || !Continues(keys, pre, parts[0]) then pre
    else Descend(keys, pre + [Atoi(parts[0])], parts[1..])
  }
}
