/** Putting a generated key into a copy of the value, at the key path of the store.

    The loop asks the value itself, not the object it has come to, whether the next name is there. So it replaces what
    is there when only the object has the name, and fails when only the value has it. */
module KeyInjection {
  import opened Options
  import opened StructuredClone
  import opened StructuredRevival
  import opened StructuredCopies

  /** What a path of names leads to. */
  function Walk(g: Graph, v: Value, names: seq<string>): Option<Value>
    decreases |names|
  {
    if names == [] then Some(v)
    else if v.Ref? && v.to in g && names[0] in g[v.to].vals then Walk(g, g[v.to].vals[names[0]], names[1..])
    else None
  }

  /** The names that the value itself has. */
  function OwnNames(g: Graph, v: Value): set<string> {
    if v.Ref? && v.to in g then g[v.to].vals.Keys else {}
  }

  /** The first name that the value itself does not have, or the last name. */
  function Leap(own: set<string>, names: seq<string>): (j: nat)
    requires names != []
    ensures j < |names| && (forall k :: 0 <= k < j ==> names[k] in own)
    ensures j < |names| - 1 ==> names[j] !in own
  {
    if |names| == 1 || names[0] !in own then 0 else 1 + Leap(own, names[1..])
  }

  /** Where the value is changed: in which object. */
  function Target(g: Graph, v: Value, names: seq<string>): Option<Value>
    requires names != []
  {
    Walk(g, v, names[..Leap(OwnNames(g, v), names)])
  }

  ghost predicate Injectable(g: Graph, v: Value, names: seq<string>)
    requires names != []
  {
    var own := OwnNames(g, v);
    && Target(g, v, names).Some? && Target(g, v, names).value.Ref?
    && forall k :: Leap(own, names) < k < |names| - 1 ==> names[k] !in own
  }

  // ------------------------------------------------------------------ the heap

  ghost predicate SameFields(g: Graph, id: nat, o: Obj, node: map<nat, Obj>)
    reads o
  {
    && id in g && o.isArray == g[id].isArray && o.fields.Keys == g[id].vals.Keys
    && forall x <- o.fields :: Same(g[id].vals[x], o.fields[x], node)
  }

  /** One field has been added or replaced. */
  ghost predicate SameBut(g: Graph, id: nat, o: Obj, node: map<nat, Obj>, x: string, s: Slot)
    reads o
  {
    && id in g && o.isArray == g[id].isArray && o.fields.Keys == g[id].vals.Keys + {x} && o.fields[x] == s
    && forall y <- o.fields :: y != x ==> Same(g[id].vals[y], o.fields[y], node)
  }

  /** New objects, each with one field that leads to the next, and the last with the field that is given. */
  ghost predicate Chain(chain: seq<Obj>, names: seq<string>, last: Option<Slot>)
    requires |chain| <= |names|
    reads chain
  {
    && (forall m, n :: 0 <= m < n < |chain| ==> chain[m] != chain[n]) && (forall o <- chain :: !o.isArray)
    && (forall m :: 0 <= m < |chain| - 1 ==> chain[m].fields == map[names[m] := Held(Ref(chain[m + 1]))])
    && (chain != [] ==>
        chain[|chain| - 1].fields == if last.Some? then map[names[|chain| - 1] := last.value] else map[])
  }

  /** The copy, changed in one object, at the name x, where there is now the slot s. */
  ghost predicate CopiedBut(g: Graph, v: Value, root: Slot, node: map<nat, Obj>, id: nat, x: string, s: Slot)
    reads node.Values
  {
    && node.Keys <= g.Keys && id in node
    && (forall i, k :: i in node && k in node && node[i] == node[k] ==> i == k)
    && Same(v, root, node)
    && (forall i <- node :: i != id ==> SameFields(g, i, node[i], node))
    && SameBut(g, id, node[id], node, x, s)
  }

  lemma CopiedFields(g: Graph, v: Value, root: Slot, node: map<nat, Obj>)
    requires ValidGraph(g) && Copied(g, v, root, node)
    ensures forall i <- node :: SameFields(g, i, node[i], node)
    ensures Distinct(node)
  {
  }

  ghost predicate Distinct(node: map<nat, Obj>) {
    forall i, k :: i in node && k in node && node[i] == node[k] ==> i == k
  }

  twostate lemma CopiedDiffers(new g: Graph, new v: Value, new root: Slot, node: map<nat, Obj>)
    requires old(allocated(root)) && old(Copied(g, v, root, node))
    ensures forall i, k :: i in node && k in node && node[i] == node[k] ==> i == k
  {
  }

  function Start(chain: seq<Obj>, key: Slot): Slot {
    if chain == [] then key else Held(Ref(chain[0]))
  }

  // ------------------------------------------------------------- on the way

  /** The loop has come to the copy of what the names lead to. */
  ghost predicate Reached(g: Graph, v: Value, names: seq<string>, node: map<nat, Obj>, ptr: Option<Slot>) {
    match Walk(g, v, names)
    case None => ptr == None
    case Some(w) => ptr.Some? && Same(w, ptr.value, node)
  }

  function Field(obj: Obj, x: string): Option<Slot>
    reads obj
  {
    if x in obj.fields then Some(obj.fields[x]) else None
  }

  predicate IsObject(ptr: Option<Slot>) {
    ptr.Some? && ptr.value.Held? && ptr.value.v.Ref?
  }

  lemma {:induction false} WalkMore(g: Graph, v: Value, names: seq<string>, k: nat)
    requires k < |names|
    ensures var w := Walk(g, v, names[..k]);
      Walk(g, v, names[..k + 1]) == if w.Some? && w.value.Ref? && w.value.to in g && names[k] in g[w.value.to].vals
        then Some(g[w.value.to].vals[names[k]]) else None
    decreases k
  {
    if k == 0 {
      assert names[..1][1..] == [];
    } else {
      assert names[..k][1..] == names[1..][..k - 1] && names[..k + 1][1..] == names[1..][..k];
      if v.Ref? && v.to in g && names[0] in g[v.to].vals {
        WalkMore(g, g[v.to].vals[names[0]], names[1..], k - 1);
      }
    }
  }

  /** At an object, the loop is at the copy of an object of the value. */
  lemma ReachedObject(g: Graph, v: Value, s: Slot, node: map<nat, Obj>, names: seq<string>, ptr: Option<Slot>)
    requires Copied(g, v, s, node) && Reached(g, v, names, node, ptr) && IsObject(ptr)
    ensures Walk(g, v, names).Some? && Walk(g, v, names).value.Ref?
    ensures var i := Walk(g, v, names).value.to; i in node && i in g && ptr.value.v.to == node[i]
  {
  }

  lemma NotReachedObject(g: Graph, v: Value, s: Slot, node: map<nat, Obj>, names: seq<string>, ptr: Option<Slot>)
    requires Reached(g, v, names, node, ptr) && !IsObject(ptr)
    ensures !(Walk(g, v, names).Some? && Walk(g, v, names).value.Ref?)
  {
  }

  lemma StepDown(g: Graph, v: Value, s: Slot, node: map<nat, Obj>, names: seq<string>, k: nat, ptr: Option<Slot>)
    requires ValidGraph(g) && Copied(g, v, s, node) && k < |names| && Reached(g, v, names[..k], node, ptr)
    requires IsObject(ptr)
    ensures Reached(g, v, names[..k + 1], node, Field(ptr.value.v.to, names[k]))
  {
    hide Same, Walk;
    ReachedObject(g, v, s, node, names[..k], ptr);
    WalkMore(g, v, names, k);
  }

  /** A walk that has failed fails further down. */
  lemma {:induction false} WalkEnds(g: Graph, v: Value, names: seq<string>, k: nat, j: nat)
    requires k < j <= |names| && !(Walk(g, v, names[..k]).Some? && Walk(g, v, names[..k]).value.Ref?)
    ensures Walk(g, v, names[..j]).None?
    decreases j
  {
    hide Walk;
    WalkMore(g, v, names, j - 1);
    if k < j - 1 {
      WalkEnds(g, v, names, k, j - 1);
    }
  }

  twostate lemma FirstField(
      new g: Graph, new v: Value, new s: Slot, node: map<nat, Obj>, new i: nat, new x: string, new to: Slot)
    requires old(allocated(s)) && old(Copied(g, v, s, node)) && ValidGraph(g) && i in node && i in g
    requires node[i].fields == old(node[i].fields)[x := to] && forall id <- node ::
      id != i ==> node[id].fields == old(node[id].fields)
    ensures CopiedBut(g, v, s, node, i, x, to)
  {
    hide Same;
  }

  /** Beyond the leap the new objects form a chain, unless the loop has run into nothing. */
  ghost predicate Extending(
      g: Graph, v: Value, s: Slot, names: seq<string>, node: map<nat, Obj>, chain: seq<Obj>, ptr: Option<Slot>, k: nat)
    requires k < |names|
    reads node.Values, chain
  {
    var own := OwnNames(g, v);
    var j := Leap(own, names);
    && j < k && 0 < |chain| <= k - j && Target(g, v, names).Some? && Target(g, v, names).value.Ref?
    && CopiedBut(g, v, s, node, Target(g, v, names).value.to, names[j], Held(Ref(chain[0])))
    && Chain(chain, names[j + 1..], None)
    && if j < k - 1 && names[k - 1] in own then ptr == None
      else |chain| == k - j && ptr == Some(Held(Ref(chain[|chain| - 1]))) && forall m :: j < m < k ==> names[m] !in own
  }

  /** The outcome of a successful injection. */
  ghost predicate Injected(
      g: Graph, v: Value, names: seq<string>, key: Slot, r: Slot, node: map<nat, Obj>, chain: seq<Obj>)
    requires names != []
    reads node.Values, chain
  {
    var j := Leap(OwnNames(g, v), names);
    && Injectable(g, v, names) && |chain| == |names| - 1 - j && Chain(chain, names[j + 1..], Some(key))
    && CopiedBut(g, v, r, node, Target(g, v, names).value.to, names[j], Start(chain, key))
    && forall id <- node :: node[id] !in chain
  }

  method InjectKey(g: Graph, v: Value, names: seq<string>, n: real)
      returns (r: Option<Slot>, ghost node: map<nat, Obj>, ghost chain: seq<Obj>)
    requires ValidGraph(g) && ValidVal(g, v) && names != []
    ensures r.Some? <==> Injectable(g, v, names)
    ensures r.Some? ==> (
      && Injected(g, v, names, Held(Plain(Num(n))), r.value, node, chain)
      && (forall id <- node :: fresh(node[id])) && (forall o <- chain :: fresh(o)))
  {
    hide Copied, Reached, Extending, Injectable, Injected, CopiedBut, Chain, Target, Walk, ValidGraph, Distinct,
      SameFields, Same, Leap;
    var s;
    s, node := CloneValue(g, v);
    chain := [];
    var ptr: Option<Slot> := Some(s);
    ReachedStart(g, v, s, node);
    CopiedFields(g, v, s, node);
    var last: nat := |names| - 1;
    ghost var own, j := OwnNames(g, v), Leap(OwnNames(g, v), names);
    for k := 0 to last
      invariant forall id <- node :: fresh(node[id]) && node[id] !in chain
      invariant (forall o <- chain :: fresh(o)) && Distinct(node)
      invariant k <= j ==> chain == [] && Copied(g, v, s, node) && Reached(g, v, names[..k], node, ptr)
      invariant k > j ==> Extending(g, v, s, names, node, chain, ptr, k)
    {
      if !IsObject(ptr) {
        Stuck(g, v, s, names, node, chain, ptr, k);
        return None, node, chain;
      }
      var obj := ptr.value.v.to;
      ghost var before, here := chain, ptr;
      if k < j {
        StepDown(g, v, s, node, names, k, ptr);
      } else {
        InChain(g, v, s, names, node, chain, ptr, k);
      }
      label Before:
      var hop := v.Ref? && names[k] in g[v.to].vals;
      if !hop {
        var nested := new Obj(false);
        obj.fields := obj.fields[names[k] := Held(Ref(nested))];
        chain := chain + [nested];
      }
      ptr := Field(obj, names[k]);
      if k == j {
        OthersDiffer(node, Target(g, v, names).value.to);
        Leaps@Before(g, v, s, names, node, obj, chain[0], ptr);
      } else if k > j {
        Extends@Before(g, v, s, names, node, before, chain, here, ptr, k);
      }
    }
    if !IsObject(ptr) {
      Stuck(g, v, s, names, node, chain, ptr, last);
      return None, node, chain;
    }
    InChain(g, v, s, names, node, chain, ptr, last);
    if last > j {
      Extended(g, v, s, names, node, chain, ptr);
    }
    var obj := ptr.value.v.to;
    label Last:
    obj.fields := obj.fields[names[last] := Held(Plain(Num(n)))];
    if last == j {
      FinishesHere@Last(g, v, s, names, node, obj, Held(Plain(Num(n))));
    } else {
      FinishesChain@Last(g, v, s, names, node, chain, Held(Plain(Num(n))));
    }
    InjectedIsInjectable(g, v, names, Held(Plain(Num(n))), s, node, chain);
    return Some(s), node, chain;
  }

  lemma InjectedIsInjectable(
      g: Graph, v: Value, names: seq<string>, key: Slot, r: Slot, node: map<nat, Obj>, chain: seq<Obj>)
    requires names != [] && Injected(g, v, names, key, r, node, chain)
    ensures Injectable(g, v, names)
  {
  }

  twostate lemma FinishesHere(
      new g: Graph, new v: Value, new s: Slot, new names: seq<string>, node: map<nat, Obj>, new obj: Obj, new key: Slot)
    requires names != [] && ValidGraph(g) && old(allocated(s)) && old(Copied(g, v, s, node))
    requires Leap(OwnNames(g, v), names) == |names| - 1
    requires AtTarget(g, v, names, node, obj) && old(allocated(obj))
    requires obj.fields == old(obj.fields)[names[|names| - 1] := key]
    requires forall id <- node :: node[id] == obj || node[id].fields == old(node[id].fields)
    ensures Injected(g, v, names, key, s, node, [])
  {
    hide Walk, Same, Target, OwnNames, Copied, CopiedBut;
    CopiedDiffers(g, v, s, node);
    FirstField(g, v, s, node, Target(g, v, names).value.to, names[|names| - 1], key);
  }

  /** The chain has come to the last name. */
  lemma Extended(
      g: Graph, v: Value, s: Slot, names: seq<string>, node: map<nat, Obj>, chain: seq<Obj>, ptr: Option<Slot>)
    requires names != [] && IsObject(ptr) && Extending(g, v, s, names, node, chain, ptr, |names| - 1)
    ensures Injectable(g, v, names) && chain != [] && |chain| == |names| - 1 - Leap(OwnNames(g, v), names)
    ensures CopiedBut(g, v, s, node, Target(g, v, names).value.to, names[Leap(OwnNames(g, v), names)],
      Held(Ref(chain[0])))
    ensures Chain(chain, names[Leap(OwnNames(g, v), names) + 1..], None)
  {
    hide CopiedBut, Chain, Target;
  }

  twostate lemma FinishesChain(new g: Graph, new v: Value, new s: Slot, new names: seq<string>, node: map<nat, Obj>,
      new chain: seq<Obj>, new key: Slot)
    requires names != [] && old(allocated(s)) && old(allocated(chain)) && chain != [] && Injectable(g, v, names)
    requires |chain| == |names| - 1 - Leap(OwnNames(g, v), names)
    requires old(CopiedBut(g, v, s, node, Target(g, v, names).value.to, names[Leap(OwnNames(g, v), names)],
      Held(Ref(chain[0]))))
    requires old(Chain(chain, names[Leap(OwnNames(g, v), names) + 1..], None))
    requires chain[|chain| - 1].fields == old(chain[|chain| - 1].fields)[names[|names| - 1] := key]
    requires forall id <- node :: node[id].fields == old(node[id].fields)
    requires forall m :: 0 <= m < |chain| - 1 ==> chain[m].fields == old(chain[m].fields)
    requires forall id <- node :: node[id] !in chain
    ensures Injected(g, v, names, key, s, node, chain)
  {
    hide Walk, Same, Target, OwnNames, CopiedBut, Chain;
    var j := Leap(OwnNames(g, v), names);
    StillCopiedBut(g, v, s, node, Target(g, v, names).value.to, names[j], Held(Ref(chain[0])));
    assert names[j + 1..][|chain| - 1] == names[|names| - 1];
    ChainEnds(chain, names[j + 1..], key);
  }

  twostate lemma ChainEnds(new chain: seq<Obj>, new names: seq<string>, new key: Slot)
    requires old(allocated(chain)) && 0 < |chain| <= |names| && old(Chain(chain, names, None))
    requires forall m :: 0 <= m < |chain| - 1 ==> chain[m].fields == old(chain[m].fields)
    requires chain[|chain| - 1].fields == old(chain[|chain| - 1].fields)[names[|chain| - 1] := key]
    ensures Chain(chain, names, Some(key))
  {
  }

  lemma OthersDiffer(node: map<nat, Obj>, i: nat)
    requires i in node && Distinct(node)
    ensures forall id <- node :: id != i ==> node[id] != node[i]
  {
  }

  ghost predicate AtTarget(g: Graph, v: Value, names: seq<string>, node: map<nat, Obj>, obj: Obj)
    requires names != []
  {
    var w := Target(g, v, names);
    w.Some? && w.value.Ref? && w.value.to in node && w.value.to in g && obj == node[w.value.to]
  }

  twostate lemma StillCopiedBut(
      new g: Graph, new v: Value, new s: Slot, node: map<nat, Obj>, new i: nat, new x: string, new to: Slot)
    requires old(allocated(s)) && old(allocated(to)) && old(CopiedBut(g, v, s, node, i, x, to))
    requires forall id <- node :: node[id].fields == old(node[id].fields)
    ensures CopiedBut(g, v, s, node, i, x, to)
  {
    hide Same;
  }

  /** At the leap the loop is at the copy of the object to change, and then at the end of the chain. */
  lemma InChain(
      g: Graph, v: Value, s: Slot, names: seq<string>, node: map<nat, Obj>, chain: seq<Obj>, ptr: Option<Slot>, k: nat)
    requires k < |names| && IsObject(ptr) && k >= Leap(OwnNames(g, v), names)
    requires if k <= Leap(OwnNames(g, v), names) then Copied(g, v, s, node) && Reached(g, v, names[..k], node, ptr)
      else Extending(g, v, s, names, node, chain, ptr, k)
    ensures k > Leap(OwnNames(g, v), names) ==>
      chain != [] && ptr.value.v.to == chain[|chain| - 1] && ptr.value.v.to in chain
    ensures k > Leap(OwnNames(g, v), names) ==> forall m :: 0 <= m < |chain| - 1 ==> chain[m] != chain[|chain| - 1]
    ensures k == Leap(OwnNames(g, v), names) ==> AtTarget(g, v, names, node, ptr.value.v.to)
  {
    hide Walk, Same, CopiedBut, Copied, Reached;
    if k <= Leap(OwnNames(g, v), names) {
      ReachedObject(g, v, s, node, names[..k], ptr);
    }
  }

  twostate lemma Leaps(
      new g: Graph, new v: Value, new s: Slot, new names: seq<string>, node: map<nat, Obj>, new obj: Obj,
      new nested: Obj, new ptr: Option<Slot>)
    requires names != [] && ValidGraph(g) && old(allocated(s)) && old(Copied(g, v, s, node))
    requires Leap(OwnNames(g, v), names) < |names| - 1
    requires AtTarget(g, v, names, node, obj)
    requires var i, x := Target(g, v, names).value.to, names[Leap(OwnNames(g, v), names)];
      && node[i].fields == old(node[i].fields)[x := Held(Ref(nested))] &&
        (forall id <- node :: id != i ==> node[id].fields == old(node[id].fields))
      && ptr == Field(node[i], x)
    requires nested.fields == map[] && !nested.isArray
    ensures Extending(g, v, s, names, node, [nested], ptr, Leap(OwnNames(g, v), names) + 1)
  {
    hide Walk, Same, CopiedBut, Target, Copied, Chain, OwnNames, ValidGraph, Distinct, Leap;
    var i, x := Target(g, v, names).value.to, names[Leap(OwnNames(g, v), names)];
    FirstField(g, v, s, node, i, x, Held(Ref(nested)));
    OneLink(nested, names[Leap(OwnNames(g, v), names) + 1..]);
  }

  lemma OneLink(nested: Obj, names: seq<string>)
    requires names != [] && nested.fields == map[] && !nested.isArray
    ensures Chain([nested], names, None)
  {
  }

  twostate lemma ChainGrows(new before: seq<Obj>, new chain: seq<Obj>, new names: seq<string>)
    requires old(allocated(before)) && 0 < |before| < |names| && old(Chain(before, names, None))
    requires forall m :: 0 <= m < |before| - 1 ==> before[m].fields == old(before[m].fields)
    requires |chain| == |before| + 1 && before == chain[..|before|] && chain[|before|] !in before
    requires !chain[|before|].isArray && chain[|before|].fields == map[]
    requires before[|before| - 1].fields
      == old(before[|before| - 1].fields)[names[|before| - 1] := Held(Ref(chain[|before|]))]
    ensures Chain(chain, names, None)
  {
    assert forall m :: 0 <= m < |before| ==> chain[m] == before[m];
  }

  twostate lemma ChainStays(new chain: seq<Obj>, new names: seq<string>)
    requires old(allocated(chain)) && |chain| <= |names| && old(Chain(chain, names, None))
    requires forall m :: 0 <= m < |chain| ==> chain[m].fields == old(chain[m].fields)
    ensures Chain(chain, names, None)
  {
  }

  twostate lemma Extends(new g: Graph, new v: Value, new s: Slot, new names: seq<string>, node: map<nat, Obj>,
      new before: seq<Obj>, new chain: seq<Obj>,
      new here: Option<Slot>, new ptr: Option<Slot>, new k: nat)
    requires k < |names| - 1 && old(allocated(s)) && old(allocated(before)) && old(allocated(here))
    requires old(Extending(g, v, s, names, node, before, here, k)) && IsObject(here)
    requires (forall id <- node :: node[id].fields == old(node[id].fields))
    requires (forall m :: 0 <= m < |before| - 1 ==> before[m].fields == old(before[m].fields))
    requires before != [] && here.value.v.to == before[|before| - 1] && ptr == Field(here.value.v.to, names[k])
    requires names[k] in OwnNames(g, v) ==>
      chain == before && before[|before| - 1].fields == old(before[|before| - 1].fields)
    requires names[k] !in OwnNames(g, v) ==> (
      && |chain| == |before| + 1 && before == chain[..|before|] && chain[|before|] !in before
      && !chain[|before|].isArray && chain[|before|].fields == map[]
      && before[|before| - 1].fields == old(before[|before| - 1].fields)[names[k] := Held(Ref(chain[|before|]))])
    ensures Extending(g, v, s, names, node, chain, ptr, k + 1)
  {
    hide Walk, Same, Target, OwnNames, CopiedBut, Chain;
    var j := Leap(OwnNames(g, v), names);
    StillCopiedBut(g, v, s, node, Target(g, v, names).value.to, names[j], Held(Ref(before[0])));
    if names[k] in OwnNames(g, v) {
      ChainStays(chain, names[j + 1..]);
    } else {
      assert names[j + 1..][|before| - 1] == names[k];
      ChainGrows(before, chain, names[j + 1..]);
    }
  }

  lemma ReachedStart(g: Graph, v: Value, s: Slot, node: map<nat, Obj>)
    requires Copied(g, v, s, node)
    ensures Reached(g, v, [], node, Some(s))
  {
  }

  /** The loop has come to something that is not an object. */
  lemma Stuck(
      g: Graph, v: Value, s: Slot, names: seq<string>, node: map<nat, Obj>, chain: seq<Obj>, ptr: Option<Slot>, k: nat)
    requires k < |names| && !IsObject(ptr)
    requires if k <= Leap(OwnNames(g, v), names) then Reached(g, v, names[..k], node, ptr)
      else Extending(g, v, s, names, node, chain, ptr, k)
    ensures !Injectable(g, v, names)
  {
    hide Walk, Same, CopiedBut, Chain;
    var j := Leap(OwnNames(g, v), names);
    if k <= j {
      NotReachedObject(g, v, s, node, names[..k], ptr);
      if k < j {
        WalkEnds(g, v, names, k, j);
      }
    }
  }

  // ------------------------------------------------------------- what it means

  /** What a path of names leads to among objects of the heap. */
  ghost function Follow(s: Slot, names: seq<string>, objs: set<Obj>): Option<Slot>
    reads objs
    decreases |names|
  {
    if names == [] then Some(s)
    else if s.Held? && s.v.Ref? && s.v.to in objs && names[0] in s.v.to.fields
      then Follow(s.v.to.fields[names[0]], names[1..], objs)
    else None
  }

  /** There is no key in the value yet. */
  ghost predicate NoKeyYet(g: Graph, v: Value, names: seq<string>) {
    var w := Walk(g, v, names);
    w.None? || w == Some(Undefined)
  }

  lemma {:induction false} FollowChain(chain: seq<Obj>, names: seq<string>, key: Slot, m: nat, objs: set<Obj>)
    requires chain != [] && |chain| == |names| && Chain(chain, names, Some(key)) && (forall o <- chain :: o in objs)
    requires m < |chain|
    ensures Follow(Held(Ref(chain[m])), names[m..], objs) == Some(key)
    decreases |chain| - m
  {
    assert chain[m] in objs && names[m..][1..] == names[m + 1..];
    if m < |chain| - 1 {
      FollowChain(chain, names, key, m + 1, objs);
    }
  }

  /** Before the leap the copy is walked as the value is. */
  lemma {:induction false} FollowCopy(
      g: Graph, v: Value, names: seq<string>, key: Slot, r: Slot, node: map<nat, Obj>, chain: seq<Obj>, k: nat,
      w: Value, s: Slot)
    requires names != [] && Injected(g, v, names, key, r, node, chain) && NoKeyYet(g, v, names)
    requires k <= Leap(OwnNames(g, v), names) && Walk(g, v, names[..k]) == Some(w) && Same(w, s, node)
    ensures Follow(s, names[k..], node.Values + (set o <- chain)) == Some(key)
    decreases |names| - k
  {
    hide Walk, Same, Chain, Injectable, CopiedBut;
    var j := Leap(OwnNames(g, v), names);
    var objs := node.Values + set o <- chain;
    assert names[k..][1..] == names[k + 1..] && names[k..][0] == names[k];
    if k == j {
      AtLeap(g, v, names, key, r, node, chain, w, s);
      if j < |names| - 1 {
        assert names[j + 1..][0..] == names[j + 1..];
        FollowChain(chain, names[j + 1..], key, 0, objs);
      }
    } else {
      var i, to := BeforeLeap(g, v, names, key, r, node, chain, k, w, s);
      assert node[i] in objs;
      FollowCopy(g, v, names, key, r, node, chain, k + 1, to, node[i].fields[names[k]]);
    }
  }

  lemma AtLeap(g: Graph, v: Value, names: seq<string>, key: Slot, r: Slot, node: map<nat, Obj>, chain: seq<Obj>,
      w: Value, s: Slot)
    requires names != [] && Injected(g, v, names, key, r, node, chain)
    requires Walk(g, v, names[..Leap(OwnNames(g, v), names)]) == Some(w) && Same(w, s, node)
    ensures s.Held? && s.v.Ref? && s.v.to in node.Values
    ensures var x := names[Leap(OwnNames(g, v), names)]; x in s.v.to.fields && s.v.to.fields[x] == Start(chain, key)
  {
    hide Walk, Chain;
  }

  /** A step of the walk is not the field that has been changed. */
  lemma BeforeLeap(g: Graph, v: Value, names: seq<string>, key: Slot, r: Slot, node: map<nat, Obj>, chain: seq<Obj>,
      k: nat, w: Value, s: Slot)
    returns (i: nat, to: Value)
    requires names != [] && Injected(g, v, names, key, r, node, chain) && NoKeyYet(g, v, names)
    requires k < Leap(OwnNames(g, v), names) && Walk(g, v, names[..k]) == Some(w) && Same(w, s, node)
    ensures s.Held? && s.v.Ref? && i in node && s.v.to == node[i] && names[k] in node[i].fields
    ensures Walk(g, v, names[..k + 1]) == Some(to) && Same(to, node[i].fields[names[k]], node)
  {
    hide Walk, Chain, Same;
    var j := Leap(OwnNames(g, v), names);
    WalkMore(g, v, names, k);
    if !(Walk(g, v, names[..k + 1]).Some? && Walk(g, v, names[..k + 1]).value.Ref?) {
      if k + 1 < j {
        WalkEnds(g, v, names, k + 1, j);
      }
      assert false;
    }
    i, to := w.to, Walk(g, v, names[..k + 1]).value;
    RefCopied(g, w, s, node);
    NotFoundYet(g, v, names);
    assert !(i == Target(g, v, names).value.to && names[k] == names[j]);
  }

  /** What ends at the leap is not there yet, if it is to hold the key. */
  lemma NotFoundYet(g: Graph, v: Value, names: seq<string>)
    requires names != [] && NoKeyYet(g, v, names) && Injectable(g, v, names) && Target(g, v, names).value.to in g
    ensures var j, i := Leap(OwnNames(g, v), names), Target(g, v, names).value.to;
      j == |names| - 1 && names[j] in g[i].vals ==> g[i].vals[names[j]] == Undefined
  {
    hide Walk;
    WalkMore(g, v, names, Leap(OwnNames(g, v), names));
    assert names[..|names|] == names;
  }

  lemma RefCopied(g: Graph, w: Value, s: Slot, node: map<nat, Obj>)
    requires w.Ref? && Same(w, s, node)
    ensures w.to in node && s == Held(Ref(node[w.to]))
  {
  }

  /** The key is found where it has been put. */
  lemma InjectedKeyIsFound(
      g: Graph, v: Value, names: seq<string>, key: Slot, r: Slot, node: map<nat, Obj>, chain: seq<Obj>)
    requires names != [] && Injected(g, v, names, key, r, node, chain) && NoKeyYet(g, v, names)
    ensures Follow(r, names, node.Values + (set o <- chain)) == Some(key)
  {
    assert names[..0] == [] && names[0..] == names;
    FollowCopy(g, v, names, key, r, node, chain, 0, v, r);
  }

  /** Everything that the value holds is in the changed copy as well. */
  ghost predicate KeepsAll(g: Graph, node: map<nat, Obj>)
    reads node.Values
  {
    forall id, x ::
      id in node && id in g && x in g[id].vals ==> x in node[id].fields && Same(g[id].vals[x], node[id].fields[x], node)
  }

  /** Injection adds one field and keeps everything, unless the name at the leap was there already. */
  lemma KeepsAllExactlyWhen(
      g: Graph, v: Value, names: seq<string>, n: real, r: Slot, node: map<nat, Obj>, chain: seq<Obj>)
    requires names != [] && Injected(g, v, names, Held(Plain(Num(n))), r, node, chain) && NoKeyYet(g, v, names)
    ensures Target(g, v, names).value.to in g
    ensures KeepsAll(g, node) <==> names[Leap(OwnNames(g, v), names)] !in g[Target(g, v, names).value.to].vals
  {
    hide Walk, Chain;
    var i, x := Target(g, v, names).value.to, names[Leap(OwnNames(g, v), names)];
    NotFoundYet(g, v, names);
    if x in g[i].vals {
      assert !Same(g[i].vals[x], node[i].fields[x], node);
    }
  }

  /** The name of a place inside the value: with one or two names nothing is lost, since the first is looked up in the
      right object. */
  lemma TwoNamesKeepAll(g: Graph, v: Value, names: seq<string>, n: real, r: Slot, node: map<nat, Obj>, chain: seq<Obj>)
    requires 0 < |names| <= 2 && Injected(g, v, names, Held(Plain(Num(n))), r, node, chain) && Walk(g, v, names).None?
    ensures KeepsAll(g, node)
  {
    hide Chain, KeepsAll, CopiedBut;
    KeepsAllExactlyWhen(g, v, names, n, r, node, chain);
    var j := Leap(OwnNames(g, v), names);
    WalkMore(g, v, names, j);
    assert names[..|names|] == names && names[..0] == [];
  }

  /** And a key is refused only where there is no object to put it into. */
  lemma TwoNamesRefuse(g: Graph, v: Value, names: seq<string>)
    requires 0 < |names| <= 2 && ValidGraph(g) && ValidVal(g, v)
    ensures Injectable(g, v, names) <==> CanInjectKey(g, v, names)
  {
    assert names[..0] == [];
    WalkMore(g, v, names, 0);
  }

  /** With three names a field can be lost: at a.b.c, the value { a: { b: { d: 1 } } } loses d, for it has no b of its
      own. */
  lemma ThreeNamesLose()
    ensures var g: Graph := map[
        0 := Node(false, ["a"], map["a" := Ref(1)]),
        1 := Node(false, ["b"], map["b" := Ref(2)]),
        2 := Node(false, ["d"], map["d" := Plain(Num(1.0))])];
      var names := ["a", "b", "c"];
      && ValidGraph(g) && NoKeyYet(g, Ref(0), names) && Injectable(g, Ref(0), names)
      && names[Leap(OwnNames(g, Ref(0)), names)] in g[Target(g, Ref(0), names).value.to].vals
  {
    var g: Graph := map[
        0 := Node(false, ["a"], map["a" := Ref(1)]),
        1 := Node(false, ["b"], map["b" := Ref(2)]),
        2 := Node(false, ["d"], map["d" := Plain(Num(1.0))])];
    var names := ["a", "b", "c"];
    assert names[1..] == ["b", "c"] && names[1..][1..] == ["c"] && names[..1] == ["a"] && names[..1][1..] == [];
    assert Leap({"a"}, names[1..]) == 0;
    assert Leap(OwnNames(g, Ref(0)), names) == 1;
  }

  /** And a key that could be injected is refused: at a.b.c, the value { a: {}, b: 1 } has a b, but its a does not. */
  lemma ThreeNamesFail()
    ensures var g: Graph := map[
        0 := Node(false, ["a", "b"], map["a" := Ref(1), "b" := Plain(Num(1.0))]),
        1 := Node(false, [], map[])];
      var names := ["a", "b", "c"];
      && ValidGraph(g) && CanInjectKey(g, Ref(0), names) && NoKeyYet(g, Ref(0), names) && !Injectable(g, Ref(0), names)
  {
    var g: Graph := map[
        0 := Node(false, ["a", "b"], map["a" := Ref(1), "b" := Plain(Num(1.0))]),
        1 := Node(false, [], map[])];
    var names := ["a", "b", "c"];
    assert names[1..] == ["b", "c"] && names[1..][1..] == ["c"] && names[..2] == ["a", "b"] && names[..2][1..] == ["b"];
    assert Leap({"a", "b"}, names[1..][1..]) == 0;
    assert Leap({"a", "b"}, names[1..]) == 1;
    assert Leap(OwnNames(g, Ref(0)), names) == 2;
  }

  /** The check before an update through a cursor: it does ask each object on the way. */
  function CanInjectKey(g: Graph, v: Value, names: seq<string>): bool
    requires names != []
    decreases |names|
  {
    v.Ref? && v.to in g && (|names| > 1 && names[0] in g[v.to].vals ==>
      CanInjectKey(g, g[v.to].vals[names[0]], names[1..]))
  }
}
