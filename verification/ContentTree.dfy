/** The page tree: the scan's walk from the roots, and path resolution. The parent relation is
    arbitrary; cycles and dangling parents are allowed. */
module ContentTree {
  import opened Wrappers

  datatype PageId = PageId(number: int)

  datatype Page = Page(parent: Option<PageId>, name: string, order: int)

  type Tree = map<PageId, Page>

  // ---- Pages that hang from the root ----

  /** The ancestor chain of `id` reaches the root in `n` parent links. */
  predicate ReachesIn(t: Tree, id: PageId, n: nat)
    decreases n
  {
    id in t &&
    match t[id].parent
    case None => n == 0
    case Some(p) => n > 0 && ReachesIn(t, p, n - 1)
  }

  ghost predicate Rooted(t: Tree, id: PageId) {
    exists n: nat :: ReachesIn(t, id, n)
  }

  lemma RootedStep(t: Tree, id: PageId)
    ensures Rooted(t, id) <==>
            id in t && (t[id].parent.None? || Rooted(t, t[id].parent.value))
  {
    if id in t && t[id].parent.None? {
      assert ReachesIn(t, id, 0);
    }
    if id in t && t[id].parent.Some? && Rooted(t, t[id].parent.value) {
      var n: nat :| ReachesIn(t, t[id].parent.value, n);
      assert ReachesIn(t, id, n + 1);
    }
    if Rooted(t, id) {
      var n: nat :| ReachesIn(t, id, n);
      assert t[id].parent.Some? ==> ReachesIn(t, t[id].parent.value, n - 1);
    }
  }

  // ---- all_pages ----

  function ChildrenSet(t: Tree, parent: Option<PageId>): set<PageId> {
    set id | id in t && t[id].parent == parent
  }

  /** `find_by_parent`: the children in some order. */
  method FindByParent(t: Tree, parent: Option<PageId>) returns (children: seq<PageId>)
    ensures NoDuplicates(children) && forall id :: id in children <==> id in ChildrenSet(t, parent)
  {
    children := [];
    var rest := ChildrenSet(t, parent);
    while rest != {}
      invariant rest <= ChildrenSet(t, parent)
      invariant NoDuplicates(children) && forall id :: id in children <==> id in ChildrenSet(t, parent) - rest
      decreases |rest|
    {
      var id :| id in rest;
      Append(children, [id]);
      children := children + [id];
      rest := rest - {id};
    }
  }

  function Listed(out: seq<PageId>): set<PageId> { set id | id in out }

  function Somes(ids: seq<PageId>): (r: seq<Option<PageId>>)
    ensures |r| == |ids| && forall i :: 0 <= i < |ids| ==> r[i] == Some(ids[i])
  {
    seq(|ids|, i requires 0 <= i < |ids| => Some(ids[i]))
  }

  /** What the walk keeps. The stack holds the parents (the root as None) not yet expanded: their
      children are unlisted, and every other listed parent's children are listed. */
  ghost predicate WalkInv(t: Tree, out: seq<PageId>, stack: seq<Option<PageId>>) {
    && NoDuplicates(out) && NoDuplicates(stack)
    && (forall id :: id in out ==> Rooted(t, id) && t[id].parent !in stack)
    && (forall id :: id in out && t[id].parent.Some? ==> t[id].parent.value in out)
    && (forall id :: Some(id) in stack ==> id in out)
    && (forall id :: id in t && (t[id].parent.Some? ==> t[id].parent.value in out) ==>
          t[id].parent in stack || id in out)
  }

  /** Expanding the top of the stack keeps all of that. */
  lemma PopStep(t: Tree, out: seq<PageId>, stack: seq<Option<PageId>>, children: seq<PageId>)
    requires stack != [] && WalkInv(t, out, stack)
    requires NoDuplicates(children) && forall id :: id in children <==> id in ChildrenSet(t, stack[|stack| - 1])
    ensures forall id :: id in children ==> id !in out
    ensures WalkInv(t, out + children, stack[..|stack| - 1] + Somes(children))
  {
    var n := |stack| - 1;
    var parent, below := stack[n], stack[..n];
    var out', stack' := out + children, below + Somes(children);
    assert stack == below + [parent] && parent !in below;
    forall id | id in children
      ensures id !in out && Some(id) !in stack && Rooted(t, id)
    {
      RootedStep(t, id);
    }
    SomesMembers(children);
    Append(out, children);
    Append(below, Somes(children));
    forall id | id in out'
      ensures t[id].parent !in stack'
    {
      assert id in children ==> t[id].parent == parent;
    }
  }

  lemma SomesMembers(ids: seq<PageId>)
    ensures forall p :: p in Somes(ids) <==> p.Some? && p.value in ids
    ensures NoDuplicates(ids) ==> NoDuplicates(Somes(ids))
  {
    forall p: Option<PageId> | p.Some? && p.value in ids
      ensures p in Somes(ids)
    {
      var i :| 0 <= i < |ids| && ids[i] == p.value;
      assert Somes(ids)[i] == p;
    }
  }

  lemma Append<T>(a: seq<T>, b: seq<T>)
    requires NoDuplicates(a) && NoDuplicates(b) && forall x :: x in b ==> x !in a
    ensures NoDuplicates(a + b) && forall x :: x in a + b <==> x in a || x in b
  {
    assert forall i :: 0 <= i < |b| ==> b[i] in b;
  }

  /** Listing a page for the first time leaves fewer to list. */
  lemma FewerLeft(t: Tree, out: seq<PageId>, children: seq<PageId>)
    requires children != [] && children[0] in t && children[0] !in out
    ensures |t.Keys - Listed(out + children)| < |t.Keys - Listed(out)|
  {
    var left, left' := t.Keys - Listed(out), t.Keys - Listed(out + children);
    assert children[0] in left && left' <= left - {children[0]};
    SubsetSize(left', left - {children[0]});
  }

  lemma {:induction false} WalkComplete(t: Tree, out: seq<PageId>, id: PageId, n: nat)
    requires WalkInv(t, out, []) && ReachesIn(t, id, n)
    ensures id in out
    decreases n
  {
    if t[id].parent.Some? {
      WalkComplete(t, out, t[id].parent.value, n - 1);
    }
  }

  /** The walk ends on every table, and lists each page whose ancestor chain reaches the root exactly once. */
  method AllPages(t: Tree) returns (out: seq<PageId>)
    ensures NoDuplicates(out)
    ensures forall id :: id in out <==> Rooted(t, id)
  {
    out := [];
    var stack: seq<Option<PageId>> := [None];
    while stack != []
      invariant WalkInv(t, out, stack)
      decreases |t.Keys - Listed(out)|, |stack|
    {
      hide WalkInv, Listed, NoDuplicates;
      ghost var before := out;
      var parent := stack[|stack| - 1];
      var children := FindByParent(t, parent);
      PopStep(t, out, stack, children);
      stack, out := Expand(stack[..|stack| - 1], out, children);
      if children != [] {
        assert children[0] in ChildrenSet(t, parent);
        FewerLeft(t, before, children);
      } else {
        assert out == before;
      }
    }
    forall id | Rooted(t, id)
      ensures id in out
    {
      var m: nat :| ReachesIn(t, id, m);
      WalkComplete(t, out, id, m);
    }
  }

  /** The inner loop: push each child and list it. */
  method Expand(stack0: seq<Option<PageId>>, out0: seq<PageId>, children: seq<PageId>)
    returns (stack: seq<Option<PageId>>, out: seq<PageId>)
    ensures stack == stack0 + Somes(children) && out == out0 + children
  {
    stack, out := stack0, out0;
    for i := 0 to |children|
      invariant stack == stack0 + Somes(children[..i]) && out == out0 + children[..i]
    {
      assert Somes(children[..i + 1]) == Somes(children[..i]) + [Some(children[i])];
      stack := stack + [Some(children[i])];
      out := out + [children[i]];
    }
    assert children[..|children|] == children;
  }

  // ---- find_by_path ----

  ghost predicate IsNamed(t: Tree, parent: Option<PageId>, name: string, id: PageId) {
    id in t && t[id].parent == parent && t[id].name == name
  }

  /** No sibling of that name comes earlier by `page_order`; of several such, the lookup may find any. */
  ghost predicate IsFirst(t: Tree, id: PageId) {
    id in t && forall other :: IsNamed(t, t[id].parent, t[id].name, other) ==> t[id].order <= t[other].order
  }

  /** No two siblings share a name. (The table's unique index does not cover the pages at the root.) */
  ghost predicate SiblingNamesUnique(t: Tree) {
    forall a, b :: a in t && b in t && t[a].parent == t[b].parent && t[a].name == t[b].name ==> a == b
  }

  /** The first row by `page_order` of the children of that name. */
  method FindByName(t: Tree, parent: Option<PageId>, name: string) returns (found: Option<PageId>)
    ensures found.Some? ==> IsNamed(t, parent, name, found.value) && IsFirst(t, found.value)
    ensures found.None? ==> forall id :: !IsNamed(t, parent, name, id)
  {
    var matching := set id | id in t && t[id].parent == parent && t[id].name == name;
    assert forall id :: IsNamed(t, parent, name, id) <==> id in matching;
    if matching == {} {
      return None;
    }
    LeastExists(t, matching);
    var id :| id in matching && forall other :: other in matching ==> t[id].order <= t[other].order;
    found := Some(id);
  }

  lemma {:induction false} LeastExists(t: Tree, ids: set<PageId>)
    requires ids != {} && ids <= t.Keys
    ensures exists id :: id in ids && forall other :: other in ids ==> t[id].order <= t[other].order
    decreases |ids|
  {
    var some :| some in ids;
    var rest := ids - {some};
    if rest == {} {
      assert ids == {some};
    } else {
      LeastExists(t, rest);
      var least :| least in rest && forall other :: other in rest ==> t[least].order <= t[other].order;
      var id := if t[some].order <= t[least].order then some else least;
      assert id in ids && forall other :: other in ids ==> other == some || other in rest;
      assert forall other :: other in ids ==> t[id].order <= t[other].order;
    }
  }

  /** The page a step looks under: the one before position `i`, or the root. */
  function Above(chain: seq<PageId>, i: nat): Option<PageId>
    requires i <= |chain|
  {
    if i == 0 then None else Some(chain[i - 1])
  }

  /** Page `i` of the chain is the child its segment names. */
  ghost predicate LinkAt(t: Tree, path: seq<string>, nodes: seq<PageId>, i: nat)
    requires i < |path| && i < |nodes|
  {
    IsNamed(t, Above(nodes, i), path[i], nodes[i])
  }

  /** `nodes` is the chain of pages the path names, from the root down. */
  ghost predicate Spells(t: Tree, path: seq<string>, nodes: seq<PageId>) {
    |nodes| == |path| && forall i :: 0 <= i < |path| ==> LinkAt(t, path, nodes, i)
  }

  /** No child of the last page of `chain` carries the next name. */
  ghost predicate Stuck(t: Tree, chain: seq<PageId>, name: string) {
    forall id :: !IsNamed(t, Above(chain, |chain|), name, id)
  }

  /** A chain the lookups can have gone down. */
  ghost predicate Found(t: Tree, path: seq<string>, nodes: seq<PageId>) {
    Spells(t, path, nodes) && forall i :: 0 <= i < |nodes| ==> IsFirst(t, nodes[i])
  }

  /** What a resolution may answer, whichever of several equally early siblings each step finds: a chain for
      the path, or nothing when some chain for a prefix of the path cannot go on. */
  ghost predicate Answers(t: Tree, path: seq<string>, nodes: seq<PageId>) {
    || Found(t, path, nodes)
    || (nodes == [] && exists chain ::
          |chain| < |path| && Found(t, path[..|chain|], chain) && Stuck(t, chain, path[|chain|]))
  }

  /** The loop over the path segments: the whole chain, or nothing. */
  method FindByPath(t: Tree, path: seq<string>) returns (nodes: seq<PageId>)
    ensures Answers(t, path, nodes)
    ensures SiblingNamesUnique(t) ==> forall chain :: Spells(t, path, chain) ==> nodes == chain
  {
    nodes := [];
    var parent: Option<PageId> := None;
    for i := 0 to |path|
      invariant Found(t, path[..i], nodes)
      invariant parent == Above(nodes, i)
    {
      var found := FindByName(t, parent, path[i]);
      if found.None? {
        forall chain | SiblingNamesUnique(t) && Spells(t, path, chain)
          ensures false
        {
          PrefixSpells(t, path, chain, i);
          SpellingUnique(t, path[..i], nodes, chain[..i]);
        }
        assert Stuck(t, nodes, path[|nodes|]);
        return [];
      }
      ExtendSpelling(t, path[..i], nodes, path[i], found.value);
      assert path[..i] + [path[i]] == path[..i + 1];
      parent := found;
      nodes := nodes + [found.value];
    }
    assert path[..|path|] == path;
    forall chain | SiblingNamesUnique(t) && Spells(t, path, chain)
      ensures nodes == chain
    {
      SpellingUnique(t, path, nodes, chain);
    }
  }

  lemma PrefixSpells(t: Tree, path: seq<string>, chain: seq<PageId>, i: nat)
    requires Spells(t, path, chain) && i < |path|
    ensures Spells(t, path[..i], chain[..i]) && LinkAt(t, path, chain, i)
  {
    forall j | 0 <= j < i
      ensures LinkAt(t, path[..i], chain[..i], j)
    {
      assert LinkAt(t, path, chain, j);
    }
  }

  lemma ExtendSpelling(t: Tree, path: seq<string>, nodes: seq<PageId>, name: string, id: PageId)
    requires Spells(t, path, nodes)
    requires IsNamed(t, Above(nodes, |nodes|), name, id)
    ensures Spells(t, path + [name], nodes + [id])
  {
    forall i | 0 <= i <= |path|
      ensures LinkAt(t, path + [name], nodes + [id], i)
    {
      assert i < |path| ==> LinkAt(t, path, nodes, i);
    }
  }

  lemma {:induction false} SpellingUnique(t: Tree, path: seq<string>, a: seq<PageId>, b: seq<PageId>)
    requires SiblingNamesUnique(t) && Spells(t, path, a) && Spells(t, path, b)
    ensures a == b
  {
    if path != [] {
      var n := |path| - 1;
      PrefixSpells(t, path, a, n);
      PrefixSpells(t, path, b, n);
      SpellingUnique(t, path[..n], a[..n], b[..n]);
      assert a == a[..n] + [a[n]] && b == b[..n] + [b[n]];
    }
  }

  // ---- A page's own path ----

  /** The ancestor chain of a page, root first, itself last. */
  function Ancestors(t: Tree, id: PageId, n: nat): (chain: seq<PageId>)
    requires ReachesIn(t, id, n)
    ensures |chain| == n + 1 && chain[n] == id && forall i :: 0 <= i <= n ==> chain[i] in t
    decreases n
  {
    match t[id].parent
    case None => [id]
    case Some(p) => Ancestors(t, p, n - 1) + [id]
  }

  function Names(t: Tree, chain: seq<PageId>): seq<string>
    requires forall i :: 0 <= i < |chain| ==> chain[i] in t
  {
    seq(|chain|, i requires 0 <= i < |chain| => t[chain[i]].name)
  }

  lemma {:induction false} AncestorsSpell(t: Tree, id: PageId, n: nat)
    requires ReachesIn(t, id, n)
    ensures Spells(t, Names(t, Ancestors(t, id, n)), Ancestors(t, id, n))
    decreases n
  {
    var chain := Ancestors(t, id, n);
    if t[id].parent.Some? {
      var above := Ancestors(t, t[id].parent.value, n - 1);
      AncestorsSpell(t, t[id].parent.value, n - 1);
      ExtendSpelling(t, Names(t, above), above, t[id].name, id);
      assert Names(t, chain) == Names(t, above) + [t[id].name];
    } else {
      ExtendSpelling(t, [], [], t[id].name, id);
      assert chain == [] + [id] && Names(t, chain) == [] + [t[id].name];
    }
  }

  lemma {:induction false} SpelledIsRooted(t: Tree, path: seq<string>, nodes: seq<PageId>)
    requires path != [] && Spells(t, path, nodes)
    ensures Rooted(t, nodes[|nodes| - 1])
  {
    var n := |path| - 1;
    PrefixSpells(t, path, nodes, n);
    if n > 0 {
      SpelledIsRooted(t, path[..n], nodes[..n]);
    }
    RootedStep(t, nodes[n]);
  }

  ghost predicate Resolvable(t: Tree, id: PageId) {
    exists path: seq<string>, nodes: seq<PageId> :: path != [] && Spells(t, path, nodes) && nodes[|nodes| - 1] == id
  }

  /** The pages the walk lists are exactly the pages some path spells. */
  lemma RootedIffResolvable(t: Tree, id: PageId)
    ensures Rooted(t, id) <==> Resolvable(t, id)
  {
    if Rooted(t, id) {
      var n: nat :| ReachesIn(t, id, n);
      AncestorsSpell(t, id, n);
    }
    if Resolvable(t, id) {
      var path: seq<string>, nodes: seq<PageId> :| path != [] && Spells(t, path, nodes) && nodes[|nodes| - 1] == id;
      SpelledIsRooted(t, path, nodes);
    }
  }

  /** With sibling names unique, resolving a page's own path returns its ancestor chain. */
  method ResolveOwnPath(t: Tree, id: PageId, ghost n: nat, path: seq<string>) returns (nodes: seq<PageId>)
    requires SiblingNamesUnique(t) && ReachesIn(t, id, n)
    requires path == Names(t, Ancestors(t, id, n))
    ensures nodes == Ancestors(t, id, n)
  {
    AncestorsSpell(t, id, n);
    nodes := FindByPath(t, path);
  }

  /** Page `i` of the chain comes strictly before every sibling of its name. */
  ghost predicate Wins(t: Tree, path: seq<string>, chain: seq<PageId>, i: nat)
    requires i < |path| && i < |chain|
  {
    chain[i] in t &&
    forall id :: IsNamed(t, Above(chain, i), path[i], id) ==> id == chain[i] || t[chain[i]].order < t[id].order
  }

  /** Every chain can be carried on to some answer. */
  lemma {:induction false} SomeAnswer(t: Tree, path: seq<string>, chain: seq<PageId>) returns (nodes: seq<PageId>)
    requires |chain| <= |path| && Found(t, path[..|chain|], chain)
    ensures Answers(t, path, nodes) && (nodes == [] || chain <= nodes)
    decreases |path| - |chain|
  {
    var k := |chain|;
    if k == |path| {
      assert path[..k] == path;
      return chain;
    }
    var parent := Above(chain, k);
    if Stuck(t, chain, path[k]) {
      return [];
    }
    var id := FirstNamed(t, parent, path[k]);
    ExtendSpelling(t, path[..k], chain, path[k], id);
    assert path[..k] + [path[k]] == path[..k + 1];
    nodes := SomeAnswer(t, path, chain + [id]);
  }

  lemma FirstNamed(t: Tree, parent: Option<PageId>, name: string) returns (id: PageId)
    requires exists other :: IsNamed(t, parent, name, other)
    ensures IsNamed(t, parent, name, id) && IsFirst(t, id)
  {
    var matching := set other | other in t && t[other].parent == parent && t[other].name == name;
    var some :| IsNamed(t, parent, name, some);
    assert some in matching;
    LeastExists(t, matching);
    id :| id in matching && forall other :: other in matching ==> t[id].order <= t[other].order;
  }

  lemma {:induction false} OnlyChain(t: Tree, path: seq<string>, chain: seq<PageId>, other: seq<PageId>)
    requires Spells(t, path, chain) && |other| <= |path| && Found(t, path[..|other|], other)
    requires forall i :: 0 <= i < |path| ==> Wins(t, path, chain, i)
    ensures other == chain[..|other|]
  {
    if other != [] {
      var n := |other| - 1;
      PrefixSpells(t, path[..n + 1], other, n);
      assert path[..n + 1][..n] == path[..n];
      OnlyChain(t, path, chain, other[..n]);
      assert n > 0 ==> other[n - 1] == other[..n][n - 1] == chain[n - 1];
      assert LinkAt(t, path, chain, n) && IsNamed(t, Above(chain, n), path[n], other[n]);
      assert Wins(t, path, chain, n) && IsFirst(t, other[n]);
      assert other == other[..n] + [other[n]];
    }
  }

  /** Without unique names: a page's own path is sure to resolve to its chain exactly when the page and each of
      its ancestors comes strictly before any sibling of its name. */
  lemma OwnPathIff(t: Tree, id: PageId, n: nat)
    requires ReachesIn(t, id, n)
    ensures var chain := Ancestors(t, id, n); var path := Names(t, chain);
            (forall nodes :: Answers(t, path, nodes) ==> nodes == chain) <==>
            (forall i :: 0 <= i <= n ==> Wins(t, path, chain, i))
  {
    var chain := Ancestors(t, id, n);
    var path := Names(t, chain);
    AncestorsSpell(t, id, n);
    if forall i :: 0 <= i <= n ==> Wins(t, path, chain, i) {
      forall other | |other| <= |path| && Found(t, path[..|other|], other)
        ensures other == chain[..|other|] && (|other| < |path| ==> !Stuck(t, other, path[|other|]))
      {
        OnlyChain(t, path, chain, other);
        if |other| < |path| {
          assert LinkAt(t, path, chain, |other|);
          assert IsNamed(t, Above(other, |other|), path[|other|], chain[|other|]);
        }
      }
      assert path[..|path|] == path && chain[..|path|] == chain;
    } else {
      var i := FirstLoss(t, path, chain);
      LossIsSeen(t, path, chain, i);
    }
  }

  /** The first page of the chain that does not win. */
  lemma {:induction false} FirstLoss(t: Tree, path: seq<string>, chain: seq<PageId>) returns (i: nat)
    requires |path| == |chain| && exists j :: 0 <= j < |chain| && !Wins(t, path, chain, j)
    ensures i < |chain| && !Wins(t, path, chain, i) && forall j :: 0 <= j < i ==> Wins(t, path, chain, j)
  {
    i := 0;
    while Wins(t, path, chain, i)
      invariant i < |chain| && forall j :: 0 <= j < i ==> Wins(t, path, chain, j)
      decreases |chain| - i
    {
      i := i + 1;
    }
  }

  /** Some answer then leaves the chain at that page. */
  lemma LossIsSeen(t: Tree, path: seq<string>, chain: seq<PageId>, i: nat)
    requires Spells(t, path, chain) && i < |chain| && !Wins(t, path, chain, i)
    requires forall j :: 0 <= j < i ==> Wins(t, path, chain, j)
    ensures exists nodes :: Answers(t, path, nodes) && nodes != chain
  {
    PrefixSpells(t, path, chain, i);
    forall j | 0 <= j < i
      ensures IsFirst(t, chain[j])
    {
      assert LinkAt(t, path, chain, j) && Wins(t, path, chain, j);
    }
    var twin := EarlyTwin(t, path, chain, i);
    ExtendSpelling(t, path[..i], chain[..i], path[i], twin);
    assert path[..i] + [path[i]] == path[..i + 1];
    var nodes := SomeAnswer(t, path, chain[..i] + [twin]);
    assert nodes != [] ==> nodes[i] == (chain[..i] + [twin])[i];
  }

  lemma EarlyTwin(t: Tree, path: seq<string>, chain: seq<PageId>, i: nat) returns (twin: PageId)
    requires Spells(t, path, chain) && i < |chain| && !Wins(t, path, chain, i)
    ensures IsNamed(t, Above(chain, i), path[i], twin) && IsFirst(t, twin) && twin != chain[i]
  {
    assert LinkAt(t, path, chain, i);
    var other :| IsNamed(t, Above(chain, i), path[i], other) && other != chain[i] &&
        t[other].order <= t[chain[i]].order;
    twin := FirstNamed(t, Above(chain, i), path[i]);
    if twin == chain[i] {
      twin := other;
    }
  }

  /** Two pages at the root may share a name: of two roots with one name, a path finds at most one. */
  lemma SharedNameHidesAPage()
    ensures var t: Tree := map[PageId(1) := Page(None, "a", 0), PageId(2) := Page(None, "a", 0)];
            Rooted(t, PageId(1)) && Rooted(t, PageId(2)) &&
            forall path, nodes :: Spells(t, path, nodes) && nodes != [] ==> path == ["a"]
  {
    var t: Tree := map[PageId(1) := Page(None, "a", 0), PageId(2) := Page(None, "a", 0)];
    RootedStep(t, PageId(1));
    RootedStep(t, PageId(2));
    forall path, nodes | Spells(t, path, nodes) && nodes != []
      ensures path == ["a"]
    {
      assert LinkAt(t, path, nodes, 0);
      assert |path| > 1 ==> LinkAt(t, path, nodes, 1);
    }
  }
}
