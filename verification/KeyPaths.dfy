/** A store with in-line keys over the values that can be stored: a key that is injected is the key that is read. */
module KeyPaths {
  import opened Options
  import opened StructuredClone
  import opened StructuredRevival
  import opened StructuredCopies
  import opened KeyInjection
  import Keys
  import KeyGeneration

  /** A value together with the objects that it refers to. */
  datatype Document = Document(g: Graph, v: Value)

  ghost predicate Valid(d: Document) {
    ValidGraph(d.g) && ValidVal(d.g, d.v)
  }

  /** What a value other than undefined is as a key: none when it is not a valid key. */
  type Convert = (Graph, Value) -> Option<Keys.Key>

  /** Numbers are keys as they are. */
  ghost predicate Numeric(convert: Convert) {
    forall g, n :: convert(g, Plain(Num(n))) == Some(Keys.Number(n))
  }

  /** extractKey, and then valueToKey. */
  ghost function ReadKey(d: Document, names: seq<string>, convert: Convert): KeyGeneration.InlineKey {
    if NoKeyYet(d.g, d.v, names) then KeyGeneration.Undefined
    else
      var k := convert(d.g, Walk(d.g, d.v, names).value);
      if k.Some? then KeyGeneration.IsKey(k.value) else KeyGeneration.NotKey
  }

  ghost predicate AllBelow(s: set<nat>, b: nat) {
    forall i <- s :: i < b
  }

  lemma {:induction false} BoundExists(s: set<nat>)
    ensures exists b: nat :: AllBelow(s, b)
  {
    if s == {} {
      assert AllBelow(s, 0);
    } else {
      var x :| x in s;
      BoundExists(s - {x});
      var b: nat :| AllBelow(s - {x}, b);
      assert forall i <- s :: i in s - {x} || i == x;
      assert AllBelow(s, if x < b then b else x + 1);
    }
  }

  /** Where the new objects can go. */
  ghost function Free(g: Graph): (b: nat)
    ensures forall i <- g :: i < b
  {
    BoundExists(g.Keys);
    var b: nat :| AllBelow(g.Keys, b);
    b
  }

  /** New objects, each with one field that leads to the next, and the last with the value that is given. */
  function Links(names: seq<string>, base: nat, last: Value): Graph {
    map i: nat | base <= i < base + |names| :: Link(names, base, last, i)
  }

  function Link(names: seq<string>, base: nat, last: Value, i: nat): Node
    requires base <= i < base + |names|
  {
    Node(false, [names[i - base]], map[names[i - base] := if i == base + |names| - 1 then last else Ref(i + 1)])
  }

  function WithField(n: Node, x: string, w: Value): Node {
    Node(n.isArray, if x in n.vals then n.names else n.names + [x], n.vals[x := w])
  }

  /** What injectKey makes of a value. */
  ghost function Injection(d: Document, names: seq<string>, n: real): Document
    requires Valid(d) && names != [] && Injectable(d.g, d.v, names)
  {
    TargetValid(d, names);
    var j, i := Leap(OwnNames(d.g, d.v), names), Target(d.g, d.v, names).value.to;
    var rest, key := names[j + 1..], Plain(Num(n));
    var start := if rest == [] then key else Ref(Free(d.g));
    Document(d.g[i := WithField(d.g[i], names[j], start)] + Links(rest, Free(d.g), key), d.v)
  }

  lemma {:induction false} WalkValid(g: Graph, v: Value, names: seq<string>)
    requires ValidGraph(g) && ValidVal(g, v)
    ensures Walk(g, v, names).Some? ==> ValidVal(g, Walk(g, v, names).value)
    decreases |names|
  {
    if names != [] && v.Ref? && v.to in g && names[0] in g[v.to].vals {
      assert ValidNode(g, g[v.to]);
      WalkValid(g, g[v.to].vals[names[0]], names[1..]);
    }
  }

  lemma TargetValid(d: Document, names: seq<string>)
    requires Valid(d) && names != [] && Injectable(d.g, d.v, names)
    ensures Target(d.g, d.v, names).value.to in d.g
  {
    WalkValid(d.g, d.v, names[..Leap(OwnNames(d.g, d.v), names)]);
  }

  // -------------------------------------------------------- the key is found

  lemma {:induction false} WalkBoth(g: Graph, v: Value, a: seq<string>, b: seq<string>)
    ensures Walk(g, v, a + b) == if Walk(g, v, a).None? then None else Walk(g, Walk(g, v, a).value, b)
    decreases |a|
  {
    if a == [] {
      assert a + b == b;
    } else {
      assert (a + b)[1..] == a[1..] + b && (a + b)[0] == a[0];
      if v.Ref? && v.to in g && a[0] in g[v.to].vals {
        WalkBoth(g, g[v.to].vals[a[0]], a[1..], b);
      }
    }
  }

  /** Up to the leap the changed value is walked as the value was. */
  lemma {:induction false} WalkBefore(d: Document, names: seq<string>, n: real, k: nat)
    requires Valid(d) && names != [] && Injectable(d.g, d.v, names) && NoKeyYet(d.g, d.v, names)
    requires k <= Leap(OwnNames(d.g, d.v), names)
    ensures Walk(Injection(d, names, n).g, d.v, names[..k]) == Walk(d.g, d.v, names[..k])
    ensures Walk(d.g, d.v, names[..k]).Some?
  {
    hide Walk, Links, Free, NoKeyYet;
    var g1 := Injection(d, names, n).g;
    var j, i := Leap(OwnNames(d.g, d.v), names), Target(d.g, d.v, names).value.to;
    if k == 0 {
      assert names[..0] == [];
      WalkNothing(d.g, d.v);
      WalkNothing(g1, d.v);
    } else {
      WalkBefore(d, names, n, k - 1);
      WalkMore(d.g, d.v, names, k - 1);
      WalkMore(g1, d.v, names, k - 1);
      if !(Walk(d.g, d.v, names[..k - 1]).Some? && Walk(d.g, d.v, names[..k - 1]).value.Ref?) {
        WalkEnds(d.g, d.v, names, k - 1, j);
      }
      TargetValid(d, names);
      if Walk(d.g, d.v, names[..k]).None? && k < j {
        WalkEnds(d.g, d.v, names, k, j);
      }
      OnTheWay(d, names, n, k);
    }
  }

  lemma WalkNothing(g: Graph, v: Value)
    ensures Walk(g, v, []) == Some(v)
  {
  }

  /** Every field but the one that is changed stays. */
  lemma KeptBeside(d: Document, names: seq<string>, n: real, w: nat, x: string)
    requires Valid(d) && names != [] && Injectable(d.g, d.v, names) && w in d.g && x in d.g[w].vals
    requires w != Target(d.g, d.v, names).value.to || x != names[Leap(OwnNames(d.g, d.v), names)]
    ensures
      && w in Injection(d, names, n).g && x in Injection(d, names, n).g[w].vals
      && Injection(d, names, n).g[w].vals[x] == d.g[w].vals[x]
  {
    hide Walk, ValidGraph, Target, OwnNames;
    TargetValid(d, names);
  }

  /** A step before the leap is not through the field that is changed. */
  lemma OnTheWay(d: Document, names: seq<string>, n: real, k: nat)
    requires Valid(d) && names != [] && Injectable(d.g, d.v, names) && NoKeyYet(d.g, d.v, names)
    requires 0 < k <= Leap(OwnNames(d.g, d.v), names)
    requires Walk(d.g, d.v, names[..k - 1]).Some? && Walk(d.g, d.v, names[..k - 1]).value.Ref?
    ensures var w := Walk(d.g, d.v, names[..k - 1]).value.to;
      && w in d.g && w in Injection(d, names, n).g
      && names[k - 1] in d.g[w].vals && names[k - 1] in Injection(d, names, n).g[w].vals
      && Injection(d, names, n).g[w].vals[names[k - 1]] == d.g[w].vals[names[k - 1]]
  {
    hide Walk, Injection, ValidGraph;
    var j, i := Leap(OwnNames(d.g, d.v), names), Target(d.g, d.v, names).value.to;
    var w := Walk(d.g, d.v, names[..k - 1]).value.to;
    WalkValid(d.g, d.v, names[..k - 1]);
    TargetValid(d, names);
    NotFoundYet(d.g, d.v, names);
    WalkMore(d.g, d.v, names, k - 1);
    if !(Walk(d.g, d.v, names[..k]).Some? && Walk(d.g, d.v, names[..k]).value.Ref?) && k < j {
      WalkEnds(d.g, d.v, names, k, j);
    }
    KeptBeside(d, names, n, w, names[k - 1]);
  }

  lemma {:induction false} WalkLinks(g: Graph, names: seq<string>, base: nat, last: Value, m: nat)
    requires names != [] && m < |names| && forall i <- Links(names, base, last) ::
      i in g && g[i] == Links(names, base, last)[i]
    ensures Walk(g, Ref(base + m), names[m..]) == Some(last)
    decreases |names| - m
  {
    assert base + m in Links(names, base, last) && names[m..][1..] == names[m + 1..] && names[m..][0] == names[m];
    if m + 1 < |names| {
      WalkLinks(g, names, base, last, m + 1);
    }
  }

  lemma InjectionKeepsRoot(d: Document, names: seq<string>, n: real)
    requires Valid(d) && names != [] && Injectable(d.g, d.v, names)
    ensures Injection(d, names, n).v == d.v
  {
  }

  /** The field that is changed leads to the new objects, or holds the key itself. */
  lemma ChangedField(d: Document, names: seq<string>, n: real)
    requires Valid(d) && names != [] && Injectable(d.g, d.v, names)
    ensures
      var g1, i, j := Injection(d, names, n).g, Target(d.g, d.v, names).value.to, Leap(OwnNames(d.g, d.v), names);
      var rest := names[j + 1..];
      && i in g1 && names[j] in g1[i].vals
      && g1[i].vals[names[j]] == (if rest == [] then Plain(Num(n)) else Ref(Free(d.g)))
      && forall m <- Links(rest, Free(d.g), Plain(Num(n))) ::
        m in g1 && g1[m] == Links(rest, Free(d.g), Plain(Num(n)))[m]
  {
    hide Walk, ValidGraph, Target, OwnNames;
    TargetValid(d, names);
  }

  /** The key path leads to the injected key. */
  lemma InjectionIsFound(d: Document, names: seq<string>, n: real)
    requires Valid(d) && names != [] && Injectable(d.g, d.v, names) && NoKeyYet(d.g, d.v, names)
    ensures var r := Injection(d, names, n); Walk(r.g, r.v, names) == Some(Plain(Num(n)))
  {
    hide Walk, NoKeyYet, Injection, Links, Free, OwnNames, ValidGraph;
    var g1 := Injection(d, names, n).g;
    var j := Leap(OwnNames(d.g, d.v), names);
    var rest, base := names[j + 1..], Free(d.g);
    ChangedField(d, names, n);
    WalkBefore(d, names, n, j);
    WalkMore(g1, d.v, names, j);
    InjectionKeepsRoot(d, names, n);
    WalkBoth(g1, d.v, names[..j + 1], rest);
    assert names[..j + 1] + rest == names;
    if rest == [] {
      WalkNothing(g1, Plain(Num(n)));
    } else {
      assert rest[0..] == rest;
      WalkLinks(g1, rest, base, Plain(Num(n)), 0);
    }
  }

  // ------------------------------------------------------- and it is what is made

  function Placed(chain: seq<Obj>, base: nat): map<nat, Obj> {
    map i: nat | base <= i < base + |chain| :: PlacedAt(chain, base, i)
  }

  function PlacedAt(chain: seq<Obj>, base: nat, i: nat): Obj
    requires base <= i < base + |chain|
  {
    chain[i - base]
  }

  /** The graph of the document, node by node: i is the node that is changed, at the name x, and rest are the names
      below. */
  ghost predicate Made(g: Graph, g1: Graph, i: nat, x: string, rest: seq<string>, key: Value) {
    && i in g && (forall id <- g :: id < Free(g) && id in g1)
    && (forall id <- g :: id != i ==> g1[id] == g[id])
    && g1[i] == WithField(g[i], x, if rest == [] then key else Ref(Free(g)))
    && (forall id :: Free(g) <= id < Free(g) + |rest| ==> id in g1 && g1[id] == Link(rest, Free(g), key, id))
  }

  lemma InjectionIsMade(d: Document, names: seq<string>, n: real)
    requires Valid(d) && names != [] && Injectable(d.g, d.v, names)
    ensures var j, i := Leap(OwnNames(d.g, d.v), names), Target(d.g, d.v, names).value.to;
      Made(d.g, Injection(d, names, n).g, i, names[j], names[j + 1..], Plain(Num(n)))
  {
    hide Walk, Leap, OwnNames, Link;
    TargetValid(d, names);
  }

  /** The objects on the heap, by where they are in the document. */
  ghost function Home(g: Graph, node: map<nat, Obj>, chain: seq<Obj>): map<nat, Obj> {
    node + Placed(chain, Free(g))
  }

  lemma HomeOf(g: Graph, node: map<nat, Obj>, chain: seq<Obj>)
    requires node.Keys <= g.Keys
    ensures forall id <- node :: id in Home(g, node, chain) && Home(g, node, chain)[id] == node[id]
    ensures forall id ::
      Free(g) <= id < Free(g) + |chain| ==>
      id in Home(g, node, chain) && Home(g, node, chain)[id] == chain[id - Free(g)]
    ensures forall id <- Home(g, node, chain) :: id in node || Free(g) <= id < Free(g) + |chain|
  {
    forall id | Free(g) <= id < Free(g) + |chain|
      ensures id in Placed(chain, Free(g)) && Placed(chain, Free(g))[id] == chain[id - Free(g)]
    {
      assert PlacedAt(chain, Free(g), id) == chain[id - Free(g)];
    }
  }

  /** The objects are a copy of the graph. */
  lemma MadeIsCopied(g: Graph, g1: Graph, v: Value, r: Slot, node: map<nat, Obj>, chain: seq<Obj>, i: nat, x: string,
      rest: seq<string>, n: real)
    requires Made(g, g1, i, x, rest, Plain(Num(n))) && |chain| == |rest|
    requires Chain(chain, rest, Some(Held(Plain(Num(n)))))
    requires CopiedBut(g, v, r, node, i, x, KeyInjection.Start(chain, Held(Plain(Num(n))))) && forall id <- node ::
      node[id] !in chain
    ensures Copied(g1, v, r, Home(g, node, chain))
  {
    hide Home, Made, Chain;
    var home := Home(g, node, chain);
    HomeOf(g, node, chain);
    forall id | id in home ensures SameFields(g1, id, home[id], home) {
      if id in node {
        OldCopied(g, g1, v, r, node, chain, home, i, x, rest, n, id);
      } else {
        NewCopied(g, g1, chain, home, i, x, rest, n, id);
      }
    }
    AllDiffer(g, node, chain, rest, Some(Held(Plain(Num(n)))));
  }

  lemma AllDiffer(g: Graph, node: map<nat, Obj>, chain: seq<Obj>, rest: seq<string>, last: Option<Slot>)
    requires node.Keys <= g.Keys && |chain| <= |rest| && Chain(chain, rest, last) && forall id <- node ::
      node[id] !in chain
    requires forall i, k :: i in node && k in node && node[i] == node[k] ==> i == k
    ensures forall i, k ::
      i in Home(g, node, chain) && k in Home(g, node, chain) && Home(g, node, chain)[i] == Home(g, node, chain)[k] ==>
      i == k
  {
    hide Home;
    HomeOf(g, node, chain);
  }

  lemma OldCopied(g: Graph, g1: Graph, v: Value, r: Slot, node: map<nat, Obj>, chain: seq<Obj>, home: map<nat, Obj>,
      i: nat, x: string,
      rest: seq<string>, n: real, id: nat)
    requires Made(g, g1, i, x, rest, Plain(Num(n))) && |chain| == |rest| && id in node
    requires CopiedBut(g, v, r, node, i, x, KeyInjection.Start(chain, Held(Plain(Num(n)))))
    requires (forall k <- node :: k in home && home[k] == node[k])
      && forall k :: Free(g) <= k < Free(g) + |chain| ==> k in home && home[k] == chain[k - Free(g)]
    ensures SameFields(g1, id, node[id], home)
  {
  }

  lemma NewCopied(
      g: Graph, g1: Graph, chain: seq<Obj>, home: map<nat, Obj>, i: nat, x: string, rest: seq<string>, n: real, id: nat)
    requires Made(g, g1, i, x, rest, Plain(Num(n))) && |chain| == |rest|
    requires Chain(chain, rest, Some(Held(Plain(Num(n)))))
    requires Free(g) <= id < Free(g) + |chain|
    requires forall k :: Free(g) <= k < Free(g) + |chain| ==> k in home && home[k] == chain[k - Free(g)]
    ensures SameFields(g1, id, chain[id - Free(g)], home)
  {
    assert g1[id] == Link(rest, Free(g), Plain(Num(n)), id);
    assert id + 1 < Free(g) + |chain| ==> id + 1 in home;
  }

  /** What injectKey leaves on the heap is a copy of that document. */
  lemma InjectedIsInjection(d: Document, names: seq<string>, n: real, r: Slot, node: map<nat, Obj>, chain: seq<Obj>)
    requires Valid(d) && names != [] && Injected(d.g, d.v, names, Held(Plain(Num(n))), r, node, chain)
    ensures Injectable(d.g, d.v, names) && Copied(Injection(d, names, n).g, d.v, r, Home(d.g, node, chain))
  {
    hide Walk, Leap, OwnNames, Made, Injection, Copied, CopiedBut, Chain;
    var j, i := Leap(OwnNames(d.g, d.v), names), Target(d.g, d.v, names).value.to;
    InjectionIsMade(d, names, n);
    MadeIsCopied(d.g, Injection(d, names, n).g, d.v, r, node, chain, i, names[j], names[j + 1..], n);
  }

  // ------------------------------------------------------------------ key paths

  /** A key path, as a store with in-line keys uses it. */
  ghost function AtPath(names: seq<string>, convert: Convert): KeyGeneration.KeyPath<Document>
    requires names != []
  {
    KeyGeneration.KeyPath(
      d => ReadKey(d, names, convert),
      (d, n) => if Valid(d) && Injectable(d.g, d.v, names) then Some(Injection(d, names, n)) else None)
  }

  /** It reads what the names lead to, if that is a key, and no key if they lead nowhere or to undefined; it writes
      wherever injectKey does not fail, and then the names lead to the number. */
  lemma AtPathReadsAndWrites(d: Document, names: seq<string>, convert: Convert, n: real)
    requires names != []
    ensures AtPath(names, convert).read(d) ==
      match Walk(d.g, d.v, names)
      case None => KeyGeneration.Undefined
      case Some(w) =>
        if w.Undefined? then KeyGeneration.Undefined
        else if convert(d.g, w).Some? then KeyGeneration.IsKey(convert(d.g, w).value) else KeyGeneration.NotKey
    ensures var written := AtPath(names, convert).write(d, n);
      && (written.Some? <==> Valid(d) && Injectable(d.g, d.v, names))
      && (written.Some? && AtPath(names, convert).read(d) == KeyGeneration.Undefined ==>
          Walk(written.value.g, written.value.v, names) == Some(Plain(Num(n))))
  {
    hide Walk, Injection, ValidGraph, Injectable;
    if Valid(d) && Injectable(d.g, d.v, names) && NoKeyYet(d.g, d.v, names) {
      InjectionIsFound(d, names, n);
    }
  }

  /** It reads the key that it has put in. */
  lemma AtPathIsLawful(names: seq<string>, convert: Convert)
    requires names != [] && Numeric(convert)
    ensures KeyGeneration.Lawful(AtPath(names, convert))
  {
    hide Walk;
    var p := AtPath(names, convert);
    forall d, n | p.read(d) == KeyGeneration.Undefined && p.write(d, n).Some?
      ensures p.read(p.write(d, n).value) == KeyGeneration.IsKey(Keys.Number(n))
    {
      InjectionIsFound(d, names, n);
    }
  }

  /** So the value that is stored has the key that it is stored under, whether the key was in it or has been
      generated. */
  lemma StoredUnderItsKey(
      d: Document, key: Option<Keys.Key>, generator: real, autoIncrement: bool, names: seq<string>, convert: Convert)
    requires names != [] && Numeric(convert)
    ensures var made := KeyGeneration.MakeStoreKeyValue(d, key, generator, autoIncrement, Some(AtPath(names, convert)));
      made.Made? ==> ReadKey(made.value, names, convert) == KeyGeneration.IsKey(made.key)
  {
    AtPathIsLawful(names, convert);
    if KeyGeneration.MakeStoreKeyValue(d, key, generator, autoIncrement, Some(AtPath(names, convert))).Made? {
      KeyGeneration.InlineKeyIsKey(d, key, generator, autoIncrement, Some(AtPath(names, convert)));
    }
  }
}
