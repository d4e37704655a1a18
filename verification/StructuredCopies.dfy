/** Encapsulating and reviving, together: the copy has the shape of the original. */
module StructuredCopies {
  import opened Options
  import opened Decimals
  import opened StructuredClone
  import opened StructuredRevival

  // ------------------------------------------------- the text fits its patches

  ghost function Start(): Progress {
    Progress(map[], [], map[])
  }

  /** A value has been encapsulated, and nothing else. */
  ghost predicate Encapsulated(g: Graph, v: Value, t: Progress) {
    Encoded(g, Start(), t, map[[] := v])
  }

  ghost predicate Holds(g: Graph, v: Value, t: Progress, q: Path, w: Value) {
    Place(g, Start(), t, map[[] := v], q, w)
  }

  lemma PlaceIsSlot(g: Graph, v: Value, t: Progress, q: Path, w: Value)
    requires Encapsulated(g, v, t) && Holds(g, v, t, q, w)
    ensures IsSlot(t.out, q) && At(t.out, Written(v, [], t.memo), q) == Written(w, q, t.memo)
  {
    hide Memoized, Patched, Written;
    var tops := map[[] := v];
    if !(q in tops && tops[q] == w) {
      var id, x :| Property(g, Start(), t, id, x, q, w);
      assert Between(Start(), t, id);
      assert q[..|q| - 1] == t.memo[id];
    }
  }

  lemma SlotHasPlace(g: Graph, v: Value, t: Progress, q: Path) returns (w: Value)
    requires Encapsulated(g, v, t) && IsSlot(t.out, q)
    ensures Holds(g, v, t, q, w)
  {
    hide Written;
    if q == [] {
      w := v;
    } else {
      var p, x := q[..|q| - 1], q[|q| - 1];
      assert Home(Start(), t, p);
      var id :| Between(Start(), t, id) && t.memo[id] == p;
      w := g[id].vals[x];
      assert q == p + [x];
      assert Property(g, Start(), t, id, x, q, w);
    }
  }

  lemma PlaceUnique(g: Graph, v: Value, t: Progress, q: Path, w: Value, w': Value)
    requires Encapsulated(g, v, t) && Holds(g, v, t, q, w) && Holds(g, v, t, q, w')
    ensures w == w'
  {
    hide Drawn, Patched;
    if q != [] {
      var id, x :| Property(g, Start(), t, id, x, q, w);
      var id', x' :| Property(g, Start(), t, id', x', q, w');
      assert t.memo[id] == q[..|q| - 1] == t.memo[id'];
      assert Between(Start(), t, id) && Between(Start(), t, id');
    }
  }

  lemma NestedWhenHome(g: Graph, v: Value, t: Progress, p: Path)
    requires Encapsulated(g, v, t) && p in t.out
    ensures IsSlot(t.out, p) && At(t.out, Written(v, [], t.memo), p).JSub?
  {
    hide Patched, IsSlot, At, Place;
    assert Home(Start(), t, p);
    var id :| Between(Start(), t, id) && t.memo[id] == p;
    PlaceIsSlot(g, v, t, p, Ref(id));
  }

  lemma HomeWhenNested(g: Graph, v: Value, t: Progress, q: Path)
    requires Encapsulated(g, v, t) && IsSlot(t.out, q) && At(t.out, Written(v, [], t.memo), q).JSub?
    ensures q in t.out
  {
    hide Patched, IsSlot, At, Place;
    var w := SlotHasPlace(g, v, t, q);
    PlaceIsSlot(g, v, t, q, w);
    assert w.to in t.memo && t.memo[w.to] == q;
    assert Between(Start(), t, w.to);
  }

  lemma KnownHome(g: Graph, v: Value, t: Progress, id: nat)
    requires Encapsulated(g, v, t) && id in t.memo
    ensures id in g && t.memo[id] in t.out && t.out[t.memo[id]] == WrittenNode(g[id], t.memo[id], t.memo)
  {
    assert Between(Start(), t, id);
  }

  lemma PatchFits(g: Graph, v: Value, t: Progress, p: Patch)
    requires Encapsulated(g, v, t) && p in t.types
    ensures GoodPatch(t.out, Written(v, [], t.memo), p)
  {
    hide Drawn, IsSlot, At, Place;
    var i :| 0 <= i < |t.types| && t.types[i] == p;
    assert Justified(g, Start(), t, map[[] := v], t.types[i]);
    var w :| Place(g, Start(), t, map[[] := v], p.path, w) && TagOf(w, p.path, t.memo) == Some(p.tag);
    PlaceIsSlot(g, v, t, p.path, w);
    if w.BigInt? {
      ValueOfSignedText(w.big);
    }
    if w.Ref? {
      KnownHome(g, v, t, w.to);
    }
  }

  /** What the encapsulation leaves behind can be read back. */
  lemma TextFits(g: Graph, v: Value, t: Progress)
    requires Encapsulated(g, v, t)
    ensures Tree(t.out, Written(v, [], t.memo)) && GoodPatches(t.out, Written(v, [], t.memo), t.types)
  {
    hide Memoized, Drawn, Place, IsSlot, At, Written, GoodPatch;
    forall p | p in t.out ensures IsSlot(t.out, p) && At(t.out, Written(v, [], t.memo), p).JSub? {
      NestedWhenHome(g, v, t, p);
    }
    forall q | IsSlot(t.out, q) && At(t.out, Written(v, [], t.memo), q).JSub? ensures q in t.out {
      HomeWhenNested(g, v, t, q);
    }
    forall p | p in t.types ensures GoodPatch(t.out, Written(v, [], t.memo), p) {
      PatchFits(g, v, t, p);
    }
  }

  /** The patch for a place is the one its value needs. */
  lemma TagIsNeeded(g: Graph, v: Value, t: Progress, q: Path, w: Value)
    requires Encapsulated(g, v, t) && Holds(g, v, t, q, w)
    ensures TagAt(t.types, q) == TagOf(w, q, t.memo)
  {
    hide Memoized, Drawn, Place, TagOf;
    TagAtIsPatch(t.types, q);
    if TagAt(t.types, q).Some? {
      var p := Patch(q, TagAt(t.types, q).value);
      var i :| 0 <= i < |t.types| && t.types[i] == p;
      assert Justified(g, Start(), t, map[[] := v], t.types[i]);
      var w' :| Place(g, Start(), t, map[[] := v], q, w') && TagOf(w', q, t.memo) == Some(p.tag);
      PlaceUnique(g, v, t, q, w, w');
    }
  }

  // ------------------------------------------------------------------ the copy

  /** A value and its copy, when node tells which object is the copy of which. */
  ghost predicate Same(w: Value, s: Slot, node: map<nat, Obj>) {
    match w
    case Plain(a) => s == Held(Plain(a))
    case Undefined => s == Held(Undefined)
    case Date(time) => s == Held(Date(time))
    case BigInt(n) => s == Held(BigInt(n))
    case Ref(id) => id in node && s == Held(Ref(node[id]))
  }

  /** The copy is isomorphic to what can be reached from the original: distinct objects have distinct copies, shared
      ones are shared, and cycles are cycles. */
  ghost predicate Copied(g: Graph, v: Value, s: Slot, node: map<nat, Obj>)
    reads node.Values
  {
    && node.Keys <= g.Keys
    && (forall i, k :: i in node && k in node && node[i] == node[k] ==> i == k)
    && Same(v, s, node)
    && (forall id <- node :: node[id].isArray == g[id].isArray && node[id].fields.Keys == g[id].vals.Keys)
    && (forall id, x ::
      id in node && x in node[id].fields && x in g[id].vals ==> Same(g[id].vals[x], node[id].fields[x], node))
  }

  /** Field by field: what is no reference is held as it is, and a reference leads to the copy of what it led to. */
  lemma CopiedFieldByField(g: Graph, v: Value, s: Slot, node: map<nat, Obj>)
    requires Copied(g, v, s, node) && ValidGraph(g)
    ensures
      match v
      case Ref(id) => id in node && s == Held(Ref(node[id]))
      case Plain(a) => s == Held(Plain(a))
      case Undefined => s == Held(Undefined)
      case Date(time) => s == Held(Date(time))
      case BigInt(n) => s == Held(BigInt(n))
    ensures forall id <- node :: id in g && node[id].isArray == g[id].isArray && node[id].fields.Keys == g[id].vals.Keys
    ensures forall id, x :: id in node && x in g[id].vals ==>
      match g[id].vals[x]
      case Ref(other) => other in node && node[id].fields[x] == Held(Ref(node[other]))
      case Plain(a) => node[id].fields[x] == Held(Plain(a))
      case Undefined => node[id].fields[x] == Held(Undefined)
      case Date(time) => node[id].fields[x] == Held(Date(time))
      case BigInt(n) => node[id].fields[x] == Held(BigInt(n))
    ensures forall i, k :: i in node && k in node && node[i] == node[k] ==> i == k
  {
  }

  ghost function Nodes(t: Progress, home: map<Path, Obj>): map<nat, Obj>
    requires forall id <- t.memo :: t.memo[id] in home
  {
    map id | id in t.memo :: home[t.memo[id]]
  }

  lemma CopyOfPlace(g: Graph, v: Value, t: Progress, home: map<Path, Obj>, root: Slot, q: Path, w: Value)
    requires Encapsulated(g, v, t) && Holds(g, v, t, q, w)
    requires Reads(t.out, Written(v, [], t.memo), home, t.types, root) && forall id <- t.memo :: t.memo[id] in home
    ensures IsSlot(t.out, q) && Same(w, SlotNow(t.out, home, root, q), Nodes(t, home))
  {
    hide Drawn, Patched, Place, IsSlot, At, SlotNow, Homes;
    PlaceIsSlot(g, v, t, q, w);
    TagIsNeeded(g, v, t, q, w);
    if w.BigInt? {
      ValueOfSignedText(w.big);
    }
    assert w.Ref? ==> w.to in t.memo;
  }

  lemma CopyIsRight(g: Graph, v: Value, t: Progress, home: map<Path, Obj>, root: Slot)
    requires ValidGraph(g) && Encapsulated(g, v, t) && Reads(t.out, Written(v, [], t.memo), home, t.types, root)
    ensures forall id <- t.memo :: t.memo[id] in home
    ensures Copied(g, v, root, Nodes(t, home))
  {
    hide Encapsulated, Reads, Same, IsSlot, SlotNow, Written, ValidGraph, WrittenNode;
    ReadsHomes(t.out, Written(v, [], t.memo), home, t.types, root);
    forall id | id in t.memo ensures id in g && t.memo[id] in home && home[t.memo[id]].isArray == g[id].isArray
      && home[t.memo[id]].fields.Keys == g[id].vals.Keys
    {
      KnownHome(g, v, t, id);
      WrittenKeys(g[id], t.memo[id], t.memo);
    }
    var node := Nodes(t, home);
    forall i, k | i in node && k in node && node[i] == node[k] ensures i == k {
      HomesDiffer(g, v, t, i, k);
    }
    RootPlace(g, v, t);
    CopyOfPlace(g, v, t, home, root, [], v);
    RootSlot(t.out, home, root);
    forall id, x | id in node && x in node[id].fields && x in g[id].vals
      ensures Same(g[id].vals[x], node[id].fields[x], node)
    {
      FieldPlace(g, v, t, id, x);
      CopyOfPlace(g, v, t, home, root, t.memo[id] + [x], g[id].vals[x]);
      FieldSlot(t.out, home, root, t.memo[id], x);
    }
  }

  lemma WrittenKeys(n: Node, p: Path, memo: map<nat, Path>)
    ensures WrittenNode(n, p, memo).isArray == n.isArray && WrittenNode(n, p, memo).vals.Keys == n.vals.Keys
  {
  }

  lemma HomesDiffer(g: Graph, v: Value, t: Progress, i: nat, k: nat)
    requires Encapsulated(g, v, t) && i in t.memo && k in t.memo && t.memo[i] == t.memo[k]
    ensures i == k
  {
    assert Between(Start(), t, i);
  }

  lemma RootSlot(out: map<Path, JNode>, home: map<Path, Obj>, root: Slot)
    requires Homes(out, home)
    ensures IsSlot(out, []) && SlotNow(out, home, root, []) == root
  {
  }

  lemma FieldSlot(out: map<Path, JNode>, home: map<Path, Obj>, root: Slot, p: Path, x: string)
    requires Homes(out, home) && p in out && x in home[p].fields
    ensures IsSlot(out, p + [x]) && SlotNow(out, home, root, p + [x]) == home[p].fields[x]
  {
    assert (p + [x])[..|p|] == p;
  }

  lemma RootPlace(g: Graph, v: Value, t: Progress)
    ensures Holds(g, v, t, [], v)
  {
  }

  lemma FieldPlace(g: Graph, v: Value, t: Progress, id: nat, x: string)
    requires id in t.memo && id in g && x in g[id].vals
    ensures Holds(g, v, t, t.memo[id] + [x], g[id].vals[x])
  {
    assert Property(g, Start(), t, id, x, t.memo[id] + [x], g[id].vals[x]);
  }

  // ------------------------------------------------------------ the outer layer

  /** A field of the outermost object: one of the value's own, or the list of patches. */
  datatype Field = Text(j: Json) | Types(types: seq<Patch>)

  datatype Capsule = NullCapsule | Capsule(fields: map<string, Field>)

  /** A value that is not a plain object, or that uses one of the two names itself, goes into a field of its own. */
  predicate NeedsOwnField(out: map<Path, JNode>, j: Json) {
    j.JSub? && [] in out ==> out[[]].isArray || "$" in out[[]].vals || "$types" in out[[]].vals
  }

  function Wrap(out: map<Path, JNode>, j: Json, types: seq<Patch>): Capsule
    requires j.JSub? ==> [] in out
  {
    if j == JPlain(Null) then NullCapsule
    else
      var fields :=
        if NeedsOwnField(out, j) then map["$" := Text(j)]
        else map x | x in out[[]].vals :: Text(out[[]].vals[x]);
      Capsule(if |types| > 0 then fields["$types" := Types(types)] else fields)
  }

  /** The names that the outer layer uses are not mistaken for the value's own. */
  predicate WellWrapped(c: Capsule) {
    c.Capsule? ==> forall x <- c.fields :: c.fields[x].Types? <==> x == "$types"
  }

  datatype Unwrapped = Unwrapped(out: map<Path, JNode>, j: Json, types: seq<Patch>)

  function Unwrap(out: map<Path, JNode>, c: Capsule): Unwrapped
    requires WellWrapped(c) && c.Capsule?
  {
    var types := if "$types" in c.fields then c.fields["$types"].types else [];
    var val := c.fields - {"$types"};
    if "$" in val then Unwrapped(out, val["$"].j, types)
    else Unwrapped(out[[] := JNode(false, map x | x in val :: val[x].j)], JSub, types)
  }

  /** The outer layer comes off again, whatever names the value uses. */
  lemma UnwrapWrap(out: map<Path, JNode>, j: Json, types: seq<Patch>)
    requires (j.JSub? <==> [] in out) && j != JPlain(Null)
    ensures Wrap(out, j, types).Capsule? && WellWrapped(Wrap(out, j, types))
    ensures Unwrap(out, Wrap(out, j, types)) == Unwrapped(out, j, types)
  {
    var c := Wrap(out, j, types);
    var val := c.fields - {"$types"};
    if NeedsOwnField(out, j) {
      assert val == map["$" := Text(j)];
    } else {
      assert val.Keys == out[[]].vals.Keys;
      assert (map x | x in val :: val[x].j) == out[[]].vals;
    }
  }

  method StructuredEncapsulate(g: Graph, v: Value) returns (out: map<Path, JNode>, c: Capsule, ghost t: Progress)
    requires ValidGraph(g) && ValidVal(g, v)
    ensures Encapsulated(g, v, t) && out == t.out && (Written(v, [], t.memo).JSub? ==> [] in out)
    ensures c == Wrap(out, Written(v, [], t.memo), t.types)
  {
    hide Encoded, Wrap, Tree, Written;
    var e := new Encapsulation(g);
    var j := e.Encode(v, []);
    t := e.State();
    TextFits(g, v, t);
    RootMentioned(t.out, j);
    out, c := e.out, Wrap(e.out, j, e.types);
  }

  method StructuredRevive(out: map<Path, JNode>, c: Capsule) returns (s: Slot, ghost home: map<Path, Obj>)
    requires WellWrapped(c)
    requires c.Capsule? ==> var u := Unwrap(out, c); Tree(u.out, u.j) && GoodPatches(u.out, u.j, u.types)
    ensures c.NullCapsule? ==> s == Held(Plain(Null)) && home == map[]
    ensures c.Capsule? ==> var u := Unwrap(out, c); Reads(u.out, u.j, home, u.types, s)
    ensures forall p <- home :: fresh(home[p])
  {
    hide Tree, GoodPatches, Reads, Unwrap;
    if c.NullCapsule? {
      return Held(Plain(Null)), map[];
    }
    var u := Unwrap(out, c);
    s, home := Revive(u.out, u.j, u.types);
  }

  /** structuredClone: the copy has the shape of the original and shares nothing with it. */
  method CloneValue(g: Graph, v: Value) returns (s: Slot, ghost node: map<nat, Obj>)
    requires ValidGraph(g) && ValidVal(g, v)
    ensures Copied(g, v, s, node) && forall id <- node :: fresh(node[id])
  {
    hide Encapsulated, Wrap, Unwrap, Tree, GoodPatches, Reads, WellWrapped;
    ghost var t;
    var out, c;
    out, c, t := StructuredEncapsulate(g, v);
    TextFits(g, v, t);
    NestedOnlyUnderRoot(t.out, Written(v, [], t.memo));
    if v == Plain(Null) {
      NullIsAlone(g, t);
    } else {
      UnwrapWrap(t.out, Written(v, [], t.memo), t.types);
    }
    ghost var home;
    s, home := StructuredRevive(out, c);
    if v == Plain(Null) {
      node := map[];
    } else {
      CopyIsRight(g, v, t, home, s);
      node := Nodes(t, home);
    }
  }

  lemma NestedOnlyUnderRoot(out: map<Path, JNode>, j: Json)
    requires Tree(out, j)
    ensures j.JSub? <==> [] in out
  {
    if [] in out {
      NestedAt(out, j, []);
    }
    RootMentioned(out, j);
  }

  lemma NullIsAlone(g: Graph, t: Progress)
    requires Encapsulated(g, Plain(Null), t)
    ensures Wrap(t.out, JPlain(Null), t.types) == NullCapsule && WellWrapped(NullCapsule)
  {
  }
}
