/** Reading back: the tree is parsed into fresh objects, and the patches are applied to it in place, one after the
    other. */
module StructuredRevival {
  import opened Options
  import opened Decimals
  import opened StructuredClone

  /** What a field of the copy holds. Until it has been patched it may be an array of strings that is a path. */
  datatype Slot = Held(v: Val<Obj>) | PathText(path: Path)

  /** An array or plain object of the copy. */
  class Obj {
    const isArray: bool
    var fields: map<string, Slot>

    constructor (isArray: bool)
      ensures this.isArray == isArray && fields == map[]
    {
      this.isArray, fields := isArray, map[];
    }
  }

  // ------------------------------------------------------------ places in a tree

  predicate IsSlot(out: map<Path, JNode>, q: Path) {
    q == [] || (q[..|q| - 1] in out && q[|q| - 1] in out[q[..|q| - 1]].vals)
  }

  /** What the text has at a place. */
  function At(out: map<Path, JNode>, j: Json, q: Path): Json
    requires IsSlot(out, q)
  {
    if q == [] then j else out[q[..|q| - 1]].vals[q[|q| - 1]]
  }

  /** The nested arrays and objects are those that the text mentions. */
  ghost predicate Tree(out: map<Path, JNode>, j: Json) {
    && (forall p <- out :: IsSlot(out, p) && At(out, j, p).JSub?)
    && (forall q :: IsSlot(out, q) && At(out, j, q).JSub? ==> q in out)
  }

  /** What a patch expects in its place. */
  ghost predicate Fits(out: map<Path, JNode>, a: Json, tag: Tag) {
    match tag
    case UndefTag => a.JPlain?
    case DateTag => a.JPlain? && a.a.Num?
    case BigIntTag => a.JPlain? && a.a.Str? && IsSigned(a.a.s)
    case RefTag => a.JPath? && a.path in out
  }

  ghost predicate GoodPatch(out: map<Path, JNode>, j: Json, p: Patch) {
    IsSlot(out, p.path) && Fits(out, At(out, j, p.path), p.tag)
  }

  ghost predicate GoodPatches(out: map<Path, JNode>, j: Json, types: seq<Patch>) {
    && (forall p <- types :: GoodPatch(out, j, p))
    && (forall i, k :: 0 <= i < k < |types| ==> types[i].path != types[k].path)
  }

  /** The patch for a place, if there is one. */
  function TagAt(types: seq<Patch>, q: Path): Option<Tag> {
    if types == [] then None
    else if types[|types| - 1].path == q then Some(types[|types| - 1].tag)
    else TagAt(types[..|types| - 1], q)
  }

  lemma {:induction false} TagAtIsPatch(types: seq<Patch>, q: Path)
    ensures TagAt(types, q).Some? ==> Patch(q, TagAt(types, q).value) in types
    ensures TagAt(types, q).None? ==> forall p <- types :: p.path != q
  {
    if types != [] && types[|types| - 1].path != q {
      var before := types[..|types| - 1];
      TagAtIsPatch(before, q);
      assert types == before + [types[|types| - 1]];
    }
  }

  // ------------------------------------------------------------- what is read

  /** What a place of the copy should hold, given the text and the patch for the place. */
  ghost predicate Revived(home: map<Path, Obj>, q: Path, j: Json, tag: Option<Tag>, s: Slot) {
    match tag
    case None => (
      match j
      case JPlain(a) => s == Held(Plain(a))
      case JSub => q in home && s == Held(Ref(home[q]))
      case JPath(p) => s == PathText(p))
    case Some(UndefTag) => s == Held(Undefined)
    case Some(DateTag) => j.JPlain? && j.a.Num? && s == Held(Date(j.a.n.Floor))
    case Some(BigIntTag) => j.JPlain? && j.a.Str? && IsSigned(j.a.s) && s == Held(BigInt(SignedValue(j.a.s)))
    case Some(RefTag) => j.JPath? && j.path in home && s == Held(Ref(home[j.path]))
  }

  /** The objects of the copy, by the paths at which they were parsed. */
  ghost predicate Homes(out: map<Path, JNode>, home: map<Path, Obj>)
    reads home.Values
  {
    && home.Keys == out.Keys
    && (forall p, q :: p in home && q in home && home[p] == home[q] ==> p == q)
    && (forall p <- home :: home[p].isArray == out[p].isArray && home[p].fields.Keys == out[p].vals.Keys)
  }

  ghost function SlotNow(out: map<Path, JNode>, home: map<Path, Obj>, root: Slot, q: Path): Slot
    requires Homes(out, home) && IsSlot(out, q)
    reads home.Values
  {
    if q == [] then root else home[q[..|q| - 1]].fields[q[|q| - 1]]
  }

  /** The first patches have been applied, and nothing else has changed. */
  ghost predicate Reads(out: map<Path, JNode>, j: Json, home: map<Path, Obj>, types: seq<Patch>, root: Slot)
    reads home.Values
  {
    && Homes(out, home)
    && forall q :: IsSlot(out, q) ==> Revived(home, q, At(out, j, q), TagAt(types, q), SlotNow(out, home, root, q))
  }

  // --------------------------------------------------------------------- parse

  function Parsed(home: map<Path, Obj>, q: Path, j: Json): Slot
    requires j.JSub? ==> q in home
  {
    match j
    case JPlain(a) => Held(Plain(a))
    case JSub => Held(Ref(home[q]))
    case JPath(p) => PathText(p)
  }

  ghost predicate Filled(out: map<Path, JNode>, home: map<Path, Obj>, o: Obj, p: Path)
    requires p in out
    reads o
  {
    && o.fields.Keys == out[p].vals.Keys
    && forall x <- o.fields ::
      (out[p].vals[x].JSub? ==> p + [x] in home) && o.fields[x] == Parsed(home, p + [x], out[p].vals[x])
  }

  /** JSON.parse: fresh objects, one for each nested array or object of the text. */
  method ParseText(out: map<Path, JNode>, j: Json) returns (home: map<Path, Obj>, root: Slot)
    requires Tree(out, j)
    ensures Reads(out, j, home, [], root) && forall p <- home :: fresh(home[p])
  {
    hide Tree, Filled, Reads;
    home := NewObjects(out);
    var rest := out.Keys;
    while rest != {}
      invariant rest <= out.Keys
      invariant forall p <- out :: p !in rest ==> Filled(out, home, home[p], p)
      decreases rest
    {
      var p :| p in rest;
      FieldsMentioned(out, j, p);
      var fields := map x | x in out[p].vals :: Parsed(home, p + [x], out[p].vals[x]);
      Fill(out, home, home[p], p, fields);
      rest := rest - {p};
    }
    RootMentioned(out, j);
    root := Parsed(home, [], j);
    FilledReads(out, j, home, root);
  }

  method Fill(out: map<Path, JNode>, ghost home: map<Path, Obj>, o: Obj, p: Path, fields: map<string, Slot>)
    requires p in out && fields.Keys == out[p].vals.Keys
    requires forall x <- fields ::
      (out[p].vals[x].JSub? ==> p + [x] in home) && fields[x] == Parsed(home, p + [x], out[p].vals[x])
    modifies o
    ensures Filled(out, home, o, p)
  {
    o.fields := fields;
  }

  lemma RootMentioned(out: map<Path, JNode>, j: Json)
    requires Tree(out, j)
    ensures j.JSub? ==> [] in out
  {
    assert IsSlot(out, []);
  }

  lemma FieldsMentioned(out: map<Path, JNode>, j: Json, p: Path)
    requires Tree(out, j) && p in out
    ensures forall x <- out[p].vals :: out[p].vals[x].JSub? ==> p + [x] in out
  {
    hide IsSlot, At;
    forall x | x in out[p].vals && out[p].vals[x].JSub? ensures p + [x] in out {
      FieldIsSlot(out, j, p, x);
    }
  }

  lemma FieldIsSlot(out: map<Path, JNode>, j: Json, p: Path, x: string)
    requires p in out && x in out[p].vals
    ensures IsSlot(out, p + [x]) && At(out, j, p + [x]) == out[p].vals[x]
  {
    assert (p + [x])[..|p|] == p;
  }

  lemma FilledReads(out: map<Path, JNode>, j: Json, home: map<Path, Obj>, root: Slot)
    requires home.Keys == out.Keys && (forall p <- out ::
      Filled(out, home, home[p], p) && home[p].isArray == out[p].isArray)
    requires forall p, q :: p in home && q in home && home[p] == home[q] ==> p == q
    requires (j.JSub? ==> [] in home) && root == Parsed(home, [], j)
    ensures Reads(out, j, home, [], root)
  {
    hide Parsed, Filled;
    forall p | p in home ensures home[p].fields.Keys == out[p].vals.Keys {
      FilledAt(out, home, home[p], p);
    }
    forall q | IsSlot(out, q) ensures Revived(home, q, At(out, j, q), None, SlotNow(out, home, root, q)) {
      if q != [] {
        var p := q[..|q| - 1];
        FilledAt(out, home, home[p], p);
        assert q == p + [q[|q| - 1]];
      }
      ParsedIsRevived(home, q, At(out, j, q));
    }
  }

  lemma FilledAt(out: map<Path, JNode>, home: map<Path, Obj>, o: Obj, p: Path)
    requires p in out && Filled(out, home, o, p)
    ensures o.fields.Keys == out[p].vals.Keys
    ensures forall x <- o.fields ::
      (out[p].vals[x].JSub? ==> p + [x] in home) && o.fields[x] == Parsed(home, p + [x], out[p].vals[x])
  {
  }

  lemma ParsedIsRevived(home: map<Path, Obj>, q: Path, j: Json)
    requires j.JSub? ==> q in home
    ensures Revived(home, q, j, None, Parsed(home, q, j))
  {
  }

  method NewObjects(out: map<Path, JNode>) returns (home: map<Path, Obj>)
    ensures home.Keys == out.Keys
    ensures forall p <- home :: fresh(home[p]) && home[p].isArray == out[p].isArray
    ensures forall p, q :: p in home && q in home && home[p] == home[q] ==> p == q
  {
    home := map[];
    var rest := out.Keys;
    while rest != {}
      invariant rest <= out.Keys && home.Keys == out.Keys - rest
      invariant forall p <- home :: fresh(home[p]) && home[p].isArray == out[p].isArray
      invariant forall p, q :: p in home && q in home && home[p] == home[q] ==> p == q
      decreases rest
    {
      var p :| p in rest;
      var o := new Obj(out[p].isArray);
      home := home[p := o];
      rest := rest - {p};
    }
  }

  // ------------------------------------------------------------------- patches

  lemma TagAtMore(types: seq<Patch>, p: Patch, q: Path)
    ensures TagAt(types + [p], q) == if q == p.path then Some(p.tag) else TagAt(types, q)
  {
    assert (types + [p])[..|types|] == types;
  }

  lemma NestedAt(out: map<Path, JNode>, j: Json, q: Path)
    requires Tree(out, j) && q in out
    ensures IsSlot(out, q) && At(out, j, q).JSub?
  {
    hide IsSlot, At;
  }

  lemma NestedNotGood(out: map<Path, JNode>, j: Json, p: Patch)
    requires IsSlot(out, p.path) && At(out, j, p.path).JSub?
    ensures !GoodPatch(out, j, p)
  {
  }

  /** The nested arrays and objects themselves are never patched. */
  lemma NestedUnpatched(out: map<Path, JNode>, j: Json, types: seq<Patch>, q: Path)
    requires Tree(out, j) && q in out && forall p <- types :: GoodPatch(out, j, p)
    ensures IsSlot(out, q) && At(out, j, q).JSub? && TagAt(types, q).None?
  {
    hide Tree, IsSlot, At, GoodPatch;
    NestedAt(out, j, q);
    TagAtIsPatch(types, q);
    if TagAt(types, q).Some? {
      NestedNotGood(out, j, Patch(q, TagAt(types, q).value));
    }
  }

  lemma NestedNow(out: map<Path, JNode>, j: Json, home: map<Path, Obj>, types: seq<Patch>, root: Slot, q: Path)
    requires Tree(out, j) && q in out && (forall p <- types :: GoodPatch(out, j, p)) && Reads(out, j, home, types, root)
    ensures IsSlot(out, q) && q in home && SlotNow(out, home, root, q) == Held(Ref(home[q]))
  {
    hide Tree, GoodPatch, IsSlot, At, SlotNow;
    NestedUnpatched(out, j, types, q);
  }

  lemma {:induction false} PrefixNested(out: map<Path, JNode>, j: Json, q: Path, i: nat)
    requires Tree(out, j) && q in out && i <= |q|
    ensures q[..i] in out
    decreases |q| - i
  {
    hide Tree, At;
    if i < |q| {
      PrefixNested(out, j, q, i + 1);
      NestedAt(out, j, q[..i + 1]);
      assert q[..i + 1][..i] == q[..i];
    } else {
      assert q[..i] == q;
    }
  }

  /** The next step of a walk. */
  lemma StepNow(out: map<Path, JNode>, j: Json, home: map<Path, Obj>, types: seq<Patch>, root: Slot, q: Path, i: nat)
    requires Tree(out, j) && q in out && (forall p <- types :: GoodPatch(out, j, p)) && Reads(out, j, home, types, root)
    requires i < |q|
    ensures q[..i] in home && q[..i + 1] in home && q[i] in home[q[..i]].fields
    ensures home[q[..i]].fields[q[i]] == Held(Ref(home[q[..i + 1]]))
  {
    hide Tree, GoodPatch, At, Reads;
    PrefixNested(out, j, q, i + 1);
    ReadsHomes(out, j, home, types, root);
    NestedNow(out, j, home, types, root, q[..i + 1]);
    assert q[..i + 1][..i] == q[..i];
  }

  lemma ReadsHomes(out: map<Path, JNode>, j: Json, home: map<Path, Obj>, types: seq<Patch>, root: Slot)
    requires Reads(out, j, home, types, root)
    ensures Homes(out, home)
  {
  }

  lemma RootNow(out: map<Path, JNode>, j: Json, home: map<Path, Obj>, types: seq<Patch>, root: Slot, q: Path)
    requires Tree(out, j) && q in out && (forall p <- types :: GoodPatch(out, j, p)) && Reads(out, j, home, types, root)
    ensures [] in home && root == Held(Ref(home[[]]))
  {
    hide Tree, GoodPatch, At, Reads;
    PrefixNested(out, j, q, 0);
    ReadsHomes(out, j, home, types, root);
    NestedNow(out, j, home, types, root, []);
  }

  /** One more patch: its place holds what it should, and no other place has changed. */
  twostate lemma PatchApplied(
      new out: map<Path, JNode>, new j: Json, new home: map<Path, Obj>, new done: seq<Patch>, new p: Patch,
      new root: Slot, new root': Slot)
    requires old(allocated(home)) && old(allocated(root))
    requires old(Reads(out, j, home, done, root)) && Homes(out, home) && IsSlot(out, p.path)
    requires Revived(home, p.path, At(out, j, p.path), Some(p.tag), SlotNow(out, home, root', p.path))
    requires forall q ::
      IsSlot(out, q) && q != p.path ==> SlotNow(out, home, root', q) == old(SlotNow(out, home, root, q))
    ensures Reads(out, j, home, done + [p], root')
  {
    hide IsSlot, At, Revived, SlotNow, Homes;
    forall q | IsSlot(out, q)
      ensures Revived(home, q, At(out, j, q), TagAt(done + [p], q), SlotNow(out, home, root', q))
    {
      TagAtMore(done, p, q);
    }
  }

  lemma GoodIsSlot(out: map<Path, JNode>, j: Json, p: Patch)
    requires GoodPatch(out, j, p)
    ensures IsSlot(out, p.path) && Fits(out, At(out, j, p.path), p.tag)
  {
  }

  /** The place of a patch that is yet to come holds what was parsed. */
  lemma NotYetPatched(out: map<Path, JNode>, j: Json, home: map<Path, Obj>, done: seq<Patch>, root: Slot, q: Path)
    requires Reads(out, j, home, done, root) && IsSlot(out, q) && forall p <- done :: p.path != q
    ensures Homes(out, home) && Revived(home, q, At(out, j, q), None, SlotNow(out, home, root, q))
  {
    hide IsSlot, At, Revived, SlotNow, Homes;
    TagAtIsPatch(done, q);
  }

  class Revival {
    var outRoot: Slot

    constructor (root: Slot)
      ensures outRoot == root
    {
      outRoot := root;
    }

    /** The loop of mutatePath and of lookupPath: every step is there, so that no object is made on the way. */
    method Walk(
        steps: Path, ghost out: map<Path, JNode>, ghost j: Json, ghost home: map<Path, Obj>, ghost done: seq<Patch>)
        returns (o: Obj)
      requires Tree(out, j) && (forall p <- done :: GoodPatch(out, j, p)) && Reads(out, j, home, done, outRoot)
      requires steps in out
      ensures o == home[steps]
    {
      hide Tree, GoodPatch, IsSlot, Reads;
      RootNow(out, j, home, done, outRoot, steps);
      o := outRoot.v.to;
      for i := 0 to |steps|
        invariant steps[..i] in home && o == home[steps[..i]]
      {
        StepNow(out, j, home, done, outRoot, steps, i);
        o := o.fields[steps[i]].v.to;
      }
      assert steps[..|steps|] == steps;
    }

    /** What a patch makes of the value in its place. */
    method Apply(tag: Tag, x: Slot, ghost q: Path, ghost a: Json, ghost out: map<Path, JNode>, ghost j: Json,
        ghost home: map<Path, Obj>,
        ghost done: seq<Patch>) returns (y: Slot)
      requires Tree(out, j) && (forall p <- done :: GoodPatch(out, j, p)) && Reads(out, j, home, done, outRoot)
      requires Revived(home, q, a, None, x) && Fits(out, a, tag)
      ensures Revived(home, q, a, Some(tag), y)
    {
      hide Tree, GoodPatch, Reads;
      match tag {
        case UndefTag =>
          y := Held(Undefined);
        case DateTag =>
          y := Held(Date(x.v.a.n.Floor));
        case BigIntTag =>
          y := Held(BigInt(SignedValue(x.v.a.s)));
        case RefTag =>
          ReadsHomes(out, j, home, done, outRoot);
          var o := Walk(x.path, out, j, home, done);
          y := Held(Ref(o));
      }
    }

    /** mutatePath. */
    method MutatePath(
        p: Patch, ghost out: map<Path, JNode>, ghost j: Json, ghost home: map<Path, Obj>, ghost done: seq<Patch>)
      requires Tree(out, j) && (forall p <- done :: GoodPatch(out, j, p)) && Reads(out, j, home, done, outRoot)
      requires GoodPatch(out, j, p) && forall d <- done :: d.path != p.path
      modifies this, home.Values
      ensures Reads(out, j, home, done + [p], outRoot)
    {
      hide Tree, GoodPatch, Reads, Fits, Revived;
      GoodIsSlot(out, j, p);
      NotYetPatched(out, j, home, done, outRoot, p.path);
      if |p.path| == 0 {
        outRoot := Apply(p.tag, outRoot, p.path, At(out, j, p.path), out, j, home, done);
      } else {
        var last := p.path[|p.path| - 1];
        var obj := Walk(p.path[..|p.path| - 1], out, j, home, done);
        var y := Apply(p.tag, obj.fields[last], p.path, At(out, j, p.path), out, j, home, done);
        obj.fields := obj.fields[last := y];
        assert forall q ::
          IsSlot(out, q) && q != [] && q[..|q| - 1] == p.path[..|p.path| - 1] && q[|q| - 1] == last ==> q == p.path;
      }
      PatchApplied(out, j, home, done, p, old(outRoot), outRoot);
    }
  }

  /** internalStructuredRevive, on the text of the value and the list of patches. */
  method Revive(out: map<Path, JNode>, j: Json, types: seq<Patch>) returns (root: Slot, ghost home: map<Path, Obj>)
    requires Tree(out, j) && GoodPatches(out, j, types)
    ensures Reads(out, j, home, types, root) && forall p <- home :: fresh(home[p])
  {
    hide Tree, GoodPatch, Reads;
    home, root := ParseText(out, j);
    var r := new Revival(root);
    for k := 0 to |types|
      invariant Reads(out, j, home, types[..k], r.outRoot)
    {
      r.MutatePath(types[k], out, j, home, types[..k]);
      assert types[..k + 1] == types[..k] + [types[k]];
    }
    assert types[..|types|] == types;
    root := r.outRoot;
  }
}
