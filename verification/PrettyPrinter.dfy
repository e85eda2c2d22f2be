/**
 pretty.go as it runs: lists of documents interned as nodes, results memoized by position and node, and
 the loop that writes the selected layout.
 */
module PrettyPrinter {
  import opened Bytes
  import opened Machine
  import opened PrettyDocs
  import opened PrettyBest

  /** The address of a node; nil is None. */
  type Ref = Option<nat>

  datatype Node = Node(i: DocPos, d: Doc, next: Ref)

  /** Nodes refer to older ones, and no node is there twice. */
  ghost predicate Interned(nodes: seq<Node>) {
    && (forall p :: 0 <= p < |nodes| ==> Known(nodes[p].next, p))
    && forall p, q :: 0 <= p < |nodes| && 0 <= q < |nodes| && nodes[p] == nodes[q] ==> p == q
  }

  predicate Known(r: Ref, n: nat) {
    r.Some? ==> r.value < n
  }

  /** The list that starts at a node. */
  ghost function ListAt(nodes: seq<Node>, r: Ref): Docs
    requires Interned(nodes) && Known(r, |nodes|)
    decreases if r.Some? then r.value + 1 else 0
  {
    if r.None? then Done
    else
      var node := nodes[r.value];
      More(node.i, node.d, ListAt(nodes, node.next))
  }

  lemma {:induction false} ListsStay(nodes: seq<Node>, more: seq<Node>, r: Ref)
    requires Interned(nodes) && Interned(more) && nodes <= more && Known(r, |nodes|)
    ensures ListAt(more, r) == ListAt(nodes, r)
    decreases if r.Some? then r.value + 1 else 0
  {
    if r.Some? { ListsStay(nodes, more, nodes[r.value].next); }
  }

  /** Addresses are equal exactly when the lists are: comparing addresses compares lists. */
  lemma {:induction false} SameAddress(nodes: seq<Node>, r: Ref, t: Ref)
    requires Interned(nodes) && Known(r, |nodes|) && Known(t, |nodes|)
    ensures r == t <==> ListAt(nodes, r) == ListAt(nodes, t)
    decreases if r.Some? then r.value + 1 else 0
  {
    if r.Some? && t.Some? { SameAddress(nodes, nodes[r.value].next, nodes[t.value].next); }
  }

  /** The table finds every node. */
  ghost predicate Finds(memoiDoc: map<Node, nat>, nodes: seq<Node>) {
    && (forall n :: n in memoiDoc ==> memoiDoc[n] < |nodes| && nodes[memoiDoc[n]] == n)
    && forall p :: 0 <= p < |nodes| ==> nodes[p] in memoiDoc
  }

  type Key = (DocPos, nat)

  /** Every cached result is the one of the plain recursion. */
  ghost predicate Caches(memoBe: map<Key, Best>, style: Style, nodes: seq<Node>)
    requires Interned(nodes)
  {
    forall key :: key in memoBe ==> key.1 < |nodes| && Some(memoBe[key]) == Be(style, key.0, ListAt(nodes, Some(key.1)))
  }

  lemma CachesStay(memoBe: map<Key, Best>, style: Style, nodes: seq<Node>, more: seq<Node>)
    requires Interned(nodes) && Interned(more) && nodes <= more && Caches(memoBe, style, nodes)
    ensures Caches(memoBe, style, more)
  {
    forall key | key in memoBe
      ensures key.1 < |more| && Some(memoBe[key]) == Be(style, key.0, ListAt(more, Some(key.1)))
    {
      ListsStay(nodes, more, Some(key.1));
    }
  }

  lemma NewNode(memoiDoc: map<Node, nat>, nodes: seq<Node>, node: Node)
    requires Interned(nodes) && Finds(memoiDoc, nodes) && node !in memoiDoc && Known(node.next, |nodes|)
    ensures Interned(nodes + [node]) && Finds(memoiDoc[node := |nodes|], nodes + [node])
  {
    var more := nodes + [node];
    forall p | 0 <= p < |nodes| ensures more[p] == nodes[p] && nodes[p] in memoiDoc {}
  }

  class BeExec {
    const style: Style
    var nodes: seq<Node>
    var memoiDoc: map<Node, nat>
    var memoBe: map<Key, Best>

    ghost predicate Valid()
      reads this
    {
      Interned(nodes) && Finds(memoiDoc, nodes) && Caches(memoBe, style, nodes)
    }

    constructor (w: Int16, tabWidth: Int16)
      ensures Valid() && style == Style(w, tabWidth) && nodes == []
    {
      style := Style(w, tabWidth);
      nodes, memoiDoc, memoBe := [], map[], map[];
    }

    /** The one node with these values, made when there is none yet. */
    method IDoc(i: DocPos, d: Doc, z: Ref) returns (r: Ref)
      requires Valid() && Known(z, |nodes|)
      modifies this`nodes, this`memoiDoc
      ensures Valid() && old(nodes) <= nodes && Known(r, |nodes|)
      ensures ListAt(nodes, r) == More(i, d, old(ListAt(nodes, z)))
    {
      var idoc := Node(i, d, z);
      if idoc in memoiDoc { return Some(memoiDoc[idoc]); }
      ghost var before := nodes;
      NewNode(memoiDoc, nodes, idoc);
      CachesStay(memoBe, style, nodes, nodes + [idoc]);
      r := Some(|nodes|);
      memoiDoc := memoiDoc[idoc := |nodes|];
      nodes := nodes + [idoc];
      ListsStay(before, nodes, z);
    }

    /** The memoized recursion computes what the plain one does; None is a panic. */
    method BeMemo(k: DocPos, xlist: Ref) returns (res: Option<Best>)
      requires Valid() && Known(xlist, |nodes|)
      modifies this
      ensures Valid() && old(nodes) <= nodes
      ensures res == Be(style, k, old(ListAt(nodes, xlist)))
      decreases DocsSize(ListAt(nodes, xlist)), 2
    {
      if xlist == None { return Some(End); }
      var memoKey := (k, xlist.value);
      if memoKey in memoBe { return Some(memoBe[memoKey]); }
      ghost var before := nodes;
      res := Compute(k, xlist.value);
      if res == None { return; }
      ListsStay(before, nodes, xlist);
      memoBe := memoBe[memoKey := res.value];
    }

    /** The general case, by the first document. */
    method Compute(k: DocPos, x: nat) returns (res: Option<Best>)
      requires Valid() && x < |nodes|
      modifies this
      ensures Valid() && old(nodes) <= nodes
      ensures res == Be(style, k, old(ListAt(nodes, Some(x))))
      decreases DocsSize(ListAt(nodes, Some(x))), 1
    {
      var i, d, z := nodes[x].i, nodes[x].d, nodes[x].next;
      SizeAtLeastOne(d);
      match d
      case Text(s) => res := Put(TextB(s, End), Right(k, Length16(s)), z);
      case Keyword(s) => res := Put(KeywordB(s, End), Right(k, Length16(s)), z);
      case Line | SoftBreak => res := Put(LineB(i, End), i, z);
      case HardLine => res := Put(HardlineB(i, End), i, z);
      case Pad(n) => res := Put(SpacesB(n, End), Right(k, n), z);
      case Union(_, _) => res := Better(k, i, d, z);
      case Panic => res := None;
      case _ => res := Replace(k, i, d, z);
    }

    /** A piece in front of what the rest of the list is laid out as. */
    method Put(piece: Best, k: DocPos, z: Ref) returns (res: Option<Best>)
      requires Valid() && Known(z, |nodes|) && piece != End
      modifies this
      ensures Valid() && old(nodes) <= nodes
      ensures match Be(style, k, old(ListAt(nodes, z)))
              case None => res == None
              case Some(rest) => res == Some(piece.(rest := rest))
      decreases DocsSize(ListAt(nodes, z)), 3
    {
      var rest := BeMemo(k, z);
      res := if rest == None then None else Some(piece.(rest := rest.value));
    }

    /** The flat alternative if it fits; only otherwise is the other one laid out. */
    method Better(k: DocPos, i: DocPos, d: Doc, z: Ref) returns (res: Option<Best>)
      requires Valid() && Known(z, |nodes|) && d.Union?
      modifies this
      ensures Valid() && old(nodes) <= nodes
      ensures res == Be(style, k, More(i, d, old(ListAt(nodes, z))))
      decreases DocsSize(More(i, d, ListAt(nodes, z))), 0
    {
      SizeAtLeastOne(d.x);
      SizeAtLeastOne(d.y);
      res := BeOf(k, i, d.x, z);
      if res == None { return; }
      if !Fits(Remainder(style, k), res.value) {
        ListsStay(old(nodes), nodes, z);
        res := BeOf(k, i, d.y, z);
      }
    }

    /** One document in front of a list. */
    method BeOf(k: DocPos, i: DocPos, d: Doc, z: Ref) returns (res: Option<Best>)
      requires Valid() && Known(z, |nodes|)
      modifies this
      ensures Valid() && old(nodes) <= nodes
      ensures res == Be(style, k, More(i, d, old(ListAt(nodes, z))))
      decreases DocsSize(More(i, d, ListAt(nodes, z))), 3
    {
      var list := IDoc(i, d, z);
      res := BeMemo(k, list);
    }

    /** The documents that print nothing themselves. */
    method Replace(k: DocPos, i: DocPos, d: Doc, z: Ref) returns (res: Option<Best>)
      requires Valid() && Known(z, |nodes|) && !IsLeaf(d) && !d.Union? && !d.Panic?
      modifies this
      ensures Valid() && old(nodes) <= nodes
      ensures res == Be(style, k, More(i, d, old(ListAt(nodes, z))))
      decreases DocsSize(More(i, d, ListAt(nodes, z))), 0
    {
      if d.NestT? && style.tabWidth == 0 { return None; }
      ghost var xs := Replaced(style, k, i, d, ListAt(nodes, z));
      match d
      case Nil => res := BeMemo(k, z);
      case Concat(a, b) =>
        var list := IDoc(i, b, z);
        res := BeOf(k, i, a, list);
      case NestS(n, e) => res := BeOf(k, Right(i, n), e, z);
      case NestT(e) => res := BeOf(k, NextTab(style, i), e, z);
      case Column(f) => res := BeOf(k, i, Apply(f, k.spaces), z);
      case Nesting(f) => res := BeOf(k, i, Apply(f, i.spaces), z);
    }
  }
}
