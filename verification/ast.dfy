// compiler/src/ast/ast.c: growing child arrays, and teardown by a worklist with a recursive fallback.
module Ast {
  import opened CheckedSize

  /** JZASTNode, as far as ownership goes: its child pointers, some of which may be null. */
  class AstNode {
    var children: seq<AstNode?>
    var childCapacity: Size

    constructor ()
      ensures children == [] && childCapacity == 0 && Links(this, Tree(this, []), {this})
    {
      children, childCapacity := [], 0;
    }

    /** The child array is no longer than its capacity, and its bytes are a size_t. */
    predicate HasRoom()
      reads this
    {
      |children| <= childCapacity && childCapacity * POINTER_SIZE <= SIZE_MAX
    }

    /** jz_ast_add_child: the child array doubles when it is full, unless its bytes would then be no
        size_t. The child's tree, which like those of the earlier children lies in a part of the heap
        without the parent, becomes the last subtree. */
    method AddChild(child: AstNode?, ghost kids: seq<Tree>, ghost k: Tree, ghost within: set<AstNode>)
      returns (ok: bool)
      requires this !in within && HasRoom()
      requires LinksAll(children, kids, within) && Links(child, k, within)
      modifies this
      ensures ok <==>
                && child != null
                && (|old(children)| < old(childCapacity)
                    || GrownCapacity(old(childCapacity), |old(children)| + 1, 4) * POINTER_SIZE <= SIZE_MAX)
      ensures children == if ok then old(children) + [child] else old(children)
      ensures Links(this, Tree(this, if ok then kids + [k] else kids), within + {this})
      ensures HasRoom() && childCapacity >= old(childCapacity)
    {
      if child == null {
        LinksWider(children, kids, within, within + {this});
        return false;
      }
      if |children| == childCapacity {
        var newCap := GrowDoubling(childCapacity, |children| + 1, 4);
        var newBytes := MulChecked(newCap, POINTER_SIZE);
        if newBytes.None? {
          LinksWider(children, kids, within, within + {this});
          return false;
        }
        childCapacity := newCap;
      }
      children := children + [child];
      LinksWider(children, kids + [k], within, within + {this}) by { hide Links; }
      return true;
    }
  }

  /** The shape below a pointer. */
  datatype Tree = Null | Tree(node: AstNode, kids: seq<Tree>)

  /** The heap below n has the shape t, and its nodes are among `within`. */
  ghost predicate Links(n: AstNode?, t: Tree, within: set<AstNode>)
    reads within
    decreases t
  {
    match t
    case Null => n == null
    case Tree(node, kids) =>
      && n == node
      && node in within
      && |node.children| == |kids|
      && forall i :: 0 <= i < |kids| ==> Links(node.children[i], kids[i], within)
  }

  ghost predicate LinksAll(cs: seq<AstNode?>, kids: seq<Tree>, within: set<AstNode>)
    reads within
  {
    |cs| == |kids| && forall i :: 0 <= i < |cs| ==> Links(cs[i], kids[i], within)
  }

  lemma {:induction false} LinkWider(n: AstNode?, t: Tree, within: set<AstNode>, wider: set<AstNode>)
    requires Links(n, t, within) && within <= wider
    ensures Links(n, t, wider)
    decreases t
  {
    if t.Tree? {
      forall i | 0 <= i < |t.kids| ensures Links(n.children[i], t.kids[i], wider) {
        LinkWider(n.children[i], t.kids[i], within, wider);
      }
    }
  }

  lemma LinksWider(cs: seq<AstNode?>, kids: seq<Tree>, within: set<AstNode>, wider: set<AstNode>)
    requires LinksAll(cs, kids, within) && within <= wider
    ensures LinksAll(cs, kids, wider)
  {
    forall i | 0 <= i < |cs| ensures Links(cs[i], kids[i], wider) {
      LinkWider(cs[i], kids[i], within, wider);
    }
  }

  /** The nodes of a tree, each behind its children, as often as the tree has them. */
  ghost function Listing(t: Tree): seq<AstNode>
    decreases t
  {
    match t
    case Null => []
    case Tree(n, kids) => ListingOf(kids) + [n]
  }

  ghost function ListingOf(kids: seq<Tree>): seq<AstNode>
    decreases kids
  {
    if kids == [] then []
    else ListingOf(kids[..|kids| - 1]) + Listing(kids[|kids| - 1])
  }

  lemma ListingStep(kids: seq<Tree>, i: nat)
    requires i < |kids|
    ensures ListingOf(kids[..i + 1]) == ListingOf(kids[..i]) + Listing(kids[i])
  {
    assert kids[..i + 1][..i] == kids[..i];
  }

  lemma ListingPush(kids: seq<Tree>, t: Tree)
    ensures ListingOf(kids + [t]) == ListingOf(kids) + Listing(t)
  {
    assert (kids + [t])[..|kids|] == kids;
  }

  lemma {:induction false} ListingConcat(a: seq<Tree>, b: seq<Tree>)
    ensures ListingOf(a + b) == ListingOf(a) + ListingOf(b)
  {
    if b == [] {
      assert a + b == a;
    } else {
      var last := |b| - 1;
      ListingConcat(a, b[..last]);
      assert (a + b)[..|a + b| - 1] == a + b[..last];
    }
  }

  // ---- Freeing ----

  /** A node whose children were read when `at` nodes had been freed. */
  datatype Visit = Visit(node: AstNode, at: nat)

  /** The nodes handed to free(), in order, and the nodes that were read. */
  class FreeLog {
    var freed: seq<AstNode>
    ghost var visits: seq<Visit>

    constructor ()
      ensures freed == [] && visits == []
    {
      freed, visits := [], [];
    }

    method Free(n: AstNode)
      modifies this`freed
      ensures freed == old(freed) + [n]
    {
      freed := freed + [n];
    }

    ghost method Read(n: AstNode)
      modifies this`visits
      ensures visits == old(visits) + [Visit(n, |freed|)]
    {
      visits := visits + [Visit(n, |freed|)];
    }
  }

  /** From visits v0 and frees f0 on to v and f: each node that was read since was freed after that. */
  ghost predicate Handled(v0: seq<Visit>, f0: seq<AstNode>, v: seq<Visit>, f: seq<AstNode>) {
    && v0 <= v && f0 <= f
    && forall i :: |v0| <= i < |v| ==> v[i].at <= |f| && v[i].node in f[v[i].at..]
  }

  lemma HandledNothing(v: seq<Visit>, f: seq<AstNode>)
    ensures Handled(v, f, v, f)
  {
  }

  lemma HandledThen(v0: seq<Visit>, f0: seq<AstNode>, v1: seq<Visit>, f1: seq<AstNode>, v2: seq<Visit>,
                    f2: seq<AstNode>)
    requires Handled(v0, f0, v1, f1) && Handled(v1, f1, v2, f2)
    ensures Handled(v0, f0, v2, f2)
  {
    forall i | |v0| <= i < |v2| ensures v2[i].at <= |f2| && v2[i].node in f2[v2[i].at..] {
      if i < |v1| {
        assert v2[i] == v1[i];
        var later := f1[v1[i].at..];
        var k :| 0 <= k < |later| && later[k] == v1[i].node;
        assert f2[v1[i].at..][k] == f2[v1[i].at + k] == f1[v1[i].at + k] == later[k];
      }
    }
  }

  /** A node is read, others are handled, and the node is freed. */
  lemma HandledOwn(v0: seq<Visit>, f0: seq<AstNode>, n: AstNode, v1: seq<Visit>, f1: seq<AstNode>)
    requires Handled(v0 + [Visit(n, |f0|)], f0, v1, f1)
    ensures Handled(v0, f0, v1, f1 + [n])
  {
    var f2 := f1 + [n];
    forall i | |v0| <= i < |v1| ensures v1[i].at <= |f2| && v1[i].node in f2[v1[i].at..] {
      if i == |v0| {
        assert v1[i] == (v0 + [Visit(n, |f0|)])[i];
        assert f2[|f0|..][|f1| - |f0|] == n;
      } else {
        assert f2[v1[i].at..] == f1[v1[i].at..] + [n];
      }
    }
  }

  /** With no node freed twice, none is read after it was freed. */
  lemma NoReadAfterFree(v0: seq<Visit>, f0: seq<AstNode>, v: seq<Visit>, f: seq<AstNode>)
    requires Handled(v0, f0, v, f)
    requires forall i, j :: 0 <= i < j < |f| ==> f[i] != f[j]
    ensures forall i :: |v0| <= i < |v| ==> v[i].at <= |f| && v[i].node !in f[..v[i].at]
  {
    forall i | |v0| <= i < |v| ensures v[i].node !in f[..v[i].at] {
      var at, later := v[i].at, f[v[i].at..];
      var k :| 0 <= k < |later| && later[k] == v[i].node;
      assert f[at + k] == v[i].node;
    }
  }

  /** jz_ast_free_recursive_unbounded: every node behind its children. */
  method FreeRecursive(node: AstNode?, log: FreeLog, ghost t: Tree, ghost within: set<AstNode>)
    requires Links(node, t, within)
    modifies log
    ensures log.freed == old(log.freed) + Listing(t)
    ensures Handled(old(log.visits), old(log.freed), log.visits, log.freed)
    decreases t, 1
  {
    hide Handled;
    if node == null {
      HandledNothing(log.visits, log.freed);
      return;
    }
    log.Read(node);
    FreeAll(node.children, log, t.kids, within);
    HandledOwn(old(log.visits), old(log.freed), node, log.visits, log.freed);
    log.Free(node);
  }

  method FreeAll(cs: seq<AstNode?>, log: FreeLog, ghost kids: seq<Tree>, ghost within: set<AstNode>)
    requires LinksAll(cs, kids, within)
    modifies log
    ensures log.freed == old(log.freed) + ListingOf(kids)
    ensures Handled(old(log.visits), old(log.freed), log.visits, log.freed)
    decreases kids, 0
  {
    hide Links, Handled;
    HandledNothing(log.visits, log.freed);
    for j := 0 to |cs|
      invariant log.freed == old(log.freed) + ListingOf(kids[..j])
      invariant Handled(old(log.visits), old(log.freed), log.visits, log.freed)
    {
      ListingStep(kids, j);
      ghost var v, f := log.visits, log.freed;
      FreeRecursive(cs[j], log, kids[j], within);
      HandledThen(old(log.visits), old(log.freed), v, f, log.visits, log.freed);
    }
    assert kids[..|kids|] == kids;
  }

  /** The worklist of jz_ast_free. `mayAppend` answers whether the k-th append finds memory. */
  class Worklist {
    var items: seq<AstNode>
    var appends: nat
    const mayAppend: nat -> bool

    constructor (mayAppend: nat -> bool)
      ensures items == [] && this.mayAppend == mayAppend
    {
      this.mayAppend := mayAppend;
      items, appends := [], 0;
    }

    /** jz_buf_append of one pointer. */
    method Append(n: AstNode) returns (ok: bool)
      modifies this
      ensures ok == mayAppend(old(appends)) && appends == old(appends) + 1
      ensures items == if ok then old(items) + [n] else old(items)
    {
      ok := mayAppend(appends);
      appends := appends + 1;
      if ok {
        items := items + [n];
      }
    }

    method Pop() returns (n: AstNode)
      requires items != []
      modifies `items
      ensures items == old(items)[..|old(items)| - 1] && n == old(items)[|old(items)| - 1]
    {
      n := items[|items| - 1];
      items := items[..|items| - 1];
    }
  }

  lemma NothingListed(kids: seq<Tree>)
    requires kids == []
    ensures ListingOf(kids) == []
  {
  }

  lemma SameLength(cs: seq<AstNode?>, kids: seq<Tree>, within: set<AstNode>)
    requires LinksAll(cs, kids, within)
    ensures |cs| == |kids|
  {
  }

  lemma LinksAt(cs: seq<AstNode?>, kids: seq<Tree>, within: set<AstNode>, i: nat)
    requires LinksAll(cs, kids, within) && i < |cs|
    ensures |cs| == |kids| && Links(cs[i], kids[i], within)
  {
  }

  lemma LinksPush(cs: seq<AstNode?>, kids: seq<Tree>, child: AstNode?, k: Tree, within: set<AstNode>)
    requires LinksAll(cs, kids, within) && Links(child, k, within)
    ensures LinksAll(cs + [child], kids + [k], within)
  {
    hide Links;
  }

  /** Push children until one append fails. The trees of the worklist grow by those of the children
      that were taken. */
  method PushChildren(cs: seq<AstNode?>, work: Worklist, ghost kids: seq<Tree>, ghost trees: seq<Tree>,
                      ghost within: set<AstNode>)
    returns (pushed: nat, ghost trees': seq<Tree>)
    requires LinksAll(cs, kids, within) && LinksAll(work.items, trees, within)
    modifies work
    ensures pushed <= |cs|
    ensures LinksAll(work.items, trees', within)
    ensures ListingOf(trees') == ListingOf(trees) + ListingOf(kids[..pushed])
  {
    hide *;
    pushed, trees' := 0, trees;
    SameLength(cs, kids, within);
    NothingListed(kids[..0]);
    while pushed < |cs|
      invariant pushed <= |cs| && LinksAll(work.items, trees', within)
      invariant ListingOf(trees') == ListingOf(trees) + ListingOf(kids[..pushed])
    {
      var child := cs[pushed];
      ListingStep(kids, pushed);
      LinksAt(cs, kids, within, pushed);
      if child != null {
        var ok := work.Append(child);
        if !ok {
          return;
        }
        ListingPush(trees', kids[pushed]);
        LinksPush(work.items[..|work.items| - 1], trees', child, kids[pushed], within);
        trees' := trees' + [kids[pushed]];
      } else {
        NullListing(child, kids[pushed], within);
      }
      pushed := pushed + 1;
    }
  }

  lemma NullListing(n: AstNode?, t: Tree, within: set<AstNode>)
    requires Links(n, t, within) && n == null
    ensures Listing(t) == []
  {
  }

  /** Of the nodes `all`, freed on top of `before`, the nodes `rest` are still to be freed. */
  ghost predicate Owes(before: seq<AstNode>, freed: seq<AstNode>, rest: seq<AstNode>, all: seq<AstNode>) {
    multiset(freed) + multiset(rest) == multiset(before) + multiset(all)
  }

  /** Some of the rest, freed in any order. */
  lemma OwesLess(before: seq<AstNode>, freed: seq<AstNode>, rest: seq<AstNode>, all: seq<AstNode>,
                 more: seq<AstNode>, rest': seq<AstNode>)
    requires Owes(before, freed, rest, all) && multiset(rest) == multiset(rest' + more)
    ensures Owes(before, freed + more, rest', all)
  {
  }

  /** The tree on top of the worklist, popped. */
  lemma PopTree(work: seq<AstNode>, trees: seq<Tree>, within: set<AstNode>)
    requires work != [] && LinksAll(work, trees, within)
    ensures |trees| == |work|
    ensures var last := |work| - 1;
            && trees[last].Tree? && trees[last].node == work[last]
            && LinksAll(work[..last], trees[..last], within)
            && LinksAll(work[last].children, trees[last].kids, within)
            && ListingOf(trees) == ListingOf(trees[..last]) + ListingOf(trees[last].kids) + [work[last]]
  {
    var last := |work| - 1;
    assert Links(work[last], trees[last], within);
  }

  /** What is left on the worklist, freed recursively. */
  method Drain(work: Worklist, log: FreeLog, ghost trees: seq<Tree>, ghost within: set<AstNode>,
               ghost before: seq<AstNode>, ghost all: seq<AstNode>)
    requires LinksAll(work.items, trees, within) && Owes(before, log.freed, ListingOf(trees), all)
    modifies work, log
    ensures Owes(before, log.freed, [], all)
    ensures Handled(old(log.visits), old(log.freed), log.visits, log.freed)
  {
    hide Links, Owes, Handled;
    ghost var rest := trees;
    HandledNothing(log.visits, log.freed);
    while work.items != []
      invariant LinksAll(work.items, rest, within) && Owes(before, log.freed, ListingOf(rest), all)
      invariant Handled(old(log.visits), old(log.freed), log.visits, log.freed)
      decreases |work.items|
    {
      var last := |work.items| - 1;
      ListingStep(rest, last);
      assert rest[..last + 1] == rest;
      OwesLess(before, log.freed, ListingOf(rest), all, Listing(rest[last]), ListingOf(rest[..last]));
      var n := work.Pop();
      ghost var v, f := log.visits, log.freed;
      FreeRecursive(n, log, rest[last], within);
      HandledThen(old(log.visits), old(log.freed), v, f, log.visits, log.freed);
      rest := rest[..last];
    }
  }

  /** Popping cur and pushing `pushed` of its children leaves the later children and cur itself to free. */
  lemma TakenApart(rest: seq<Tree>, kids: seq<Tree>, pushed: nat, cur: AstNode)
    requires pushed <= |kids|
    ensures multiset(ListingOf(rest) + ListingOf(kids) + [cur])
         == multiset((ListingOf(rest) + ListingOf(kids[..pushed])) + (ListingOf(kids[pushed..]) + [cur]))
  {
    ListingConcat(kids[..pushed], kids[pushed..]);
    assert kids[..pushed] + kids[pushed..] == kids;
    assert ListingOf(rest) + ListingOf(kids) + [cur]
        == (ListingOf(rest) + ListingOf(kids[..pushed])) + (ListingOf(kids[pushed..]) + [cur]);
  }

  /** One turn of the loop: `done` if a failed append made it free everything that was left. */
  method FreeTop(work: Worklist, log: FreeLog, ghost trees: seq<Tree>, ghost within: set<AstNode>,
                 ghost before: seq<AstNode>, ghost all: seq<AstNode>)
    returns (done: bool, ghost trees': seq<Tree>)
    requires work.items != [] && LinksAll(work.items, trees, within)
    requires Owes(before, log.freed, ListingOf(trees), all)
    modifies work, log
    ensures done ==> Owes(before, log.freed, [], all)
    ensures !done ==> LinksAll(work.items, trees', within) && Owes(before, log.freed, ListingOf(trees'), all)
    ensures !done ==> |ListingOf(trees')| < |ListingOf(trees)|
    ensures Handled(old(log.visits), old(log.freed), log.visits, log.freed)
  {
    hide Links, Owes, ListingOf, Listing, Handled;
    PopTree(work.items, trees, within);
    ghost var rest, kids := trees[..|trees| - 1], trees[|trees| - 1].kids;
    var cur := work.Pop();
    log.Read(cur);
    ghost var v, f := log.visits, log.freed;
    HandledNothing(v, f);
    var pushed;
    pushed, trees' := PushChildren(cur.children, work, kids, rest, within);
    TakenApart(rest, kids, pushed, cur);
    OwesLess(before, log.freed, ListingOf(trees), all, ListingOf(kids[pushed..]) + [cur], ListingOf(trees'));
    if pushed < |cur.children| {
      FreeAll(cur.children[pushed..], log, kids[pushed..], within);
      HandledOwn(old(log.visits), old(log.freed), cur, log.visits, log.freed);
      log.Free(cur);
      assert log.freed == old(log.freed) + (ListingOf(kids[pushed..]) + [cur]);
      v, f := log.visits, log.freed;
      Drain(work, log, trees', within, before, all);
      HandledThen(old(log.visits), old(log.freed), v, f, log.visits, log.freed);
      return true, trees';
    }
    assert kids[pushed..] == [] && kids[..pushed] == kids;
    NoListing();
    HandledOwn(old(log.visits), old(log.freed), cur, log.visits, log.freed);
    log.Free(cur);
    assert log.freed == old(log.freed) + (ListingOf(kids[pushed..]) + [cur]);
    done := false;
  }

  lemma NoListing()
    ensures ListingOf([]) == []
  {
  }

  /** jz_ast_free: whatever appends fail, exactly the nodes of the tree are freed, each as often as the
      tree has it, and each node that is read is freed after that. */
  method AstFree(node: AstNode?, mayAppend: nat -> bool, log: FreeLog, ghost t: Tree, ghost within: set<AstNode>)
    requires Links(node, t, within)
    modifies log
    ensures multiset(log.freed) == multiset(old(log.freed)) + multiset(Listing(t))
    ensures Handled(old(log.visits), old(log.freed), log.visits, log.freed)
  {
    hide Handled;
    HandledNothing(log.visits, log.freed);
    if node == null {
      return;
    }
    var work := new Worklist(mayAppend);
    var ok := work.Append(node);
    if !ok {
      FreeRecursive(node, log, t, within);
      return;
    }
    ghost var before, all, trees := log.freed, Listing(t), [t];
    ListingPush([], t);
    assert [] + [t] == [t];
    while work.items != []
      invariant fresh(work) && LinksAll(work.items, trees, within) && Owes(before, log.freed, ListingOf(trees), all)
      invariant Handled(old(log.visits), old(log.freed), log.visits, log.freed)
      decreases |ListingOf(trees)|
    {
      hide Links, ListingOf, Listing;
      var done;
      ghost var v, f := log.visits, log.freed;
      done, trees := FreeTop(work, log, trees, within, before, all);
      HandledThen(old(log.visits), old(log.freed), v, f, log.visits, log.freed);
      if done {
        return;
      }
    }
  }

  /** A tree without a node in two places: freeing it into an empty log leaves each of its nodes in the
      log at one place, and no other node. */
  lemma EachNodeOnce(freed: seq<AstNode>, t: Tree)
    requires multiset(freed) == multiset(Listing(t))
    requires forall i, j :: 0 <= i < j < |Listing(t)| ==> Listing(t)[i] != Listing(t)[j]
    ensures forall n :: n in freed <==> n in Listing(t)
    ensures forall i, j :: 0 <= i < j < |freed| ==> freed[i] != freed[j]
  {
    var listing := Listing(t);
    forall n ensures n in freed <==> n in listing {
      assert n in freed <==> n in multiset(freed);
      assert n in listing <==> n in multiset(listing);
    }
    forall i, j | 0 <= i < j < |freed| ensures freed[i] != freed[j] {
      OccursTwice(freed, i, j);
      OccursOnce(listing, freed[i]);
    }
  }

  lemma OccursTwice(s: seq<AstNode>, i: nat, j: nat)
    requires i < j < |s|
    ensures s[i] == s[j] ==> multiset(s)[s[i]] >= 2
  {
    var a, b := s[..j], s[j..];
    assert s == a + b;
    assert a[i] in multiset(a) && b[0] in multiset(b);
  }

  lemma {:induction false} OccursOnce(s: seq<AstNode>, n: AstNode)
    requires forall i, j :: 0 <= i < j < |s| ==> s[i] != s[j]
    ensures multiset(s)[n] <= 1
  {
    if s != [] {
      var init, last := s[..|s| - 1], s[|s| - 1];
      OccursOnce(init, n);
      assert s == init + [last];
      if n == last {
        assert n !in init;
        assert n !in multiset(init);
      }
    }
  }
}
