/** Structured clone by way of JSON: a graph of arrays and plain objects, with sharing and cycles, is written as a tree
    together with a list of patches, and read back by applying the patches to the tree.

    Reading back what was written gives an isomorphic graph: every object comes back once, with the same fields, and
    fields that referred to the same object do so again. */
module StructuredClone {

  import opened Options
  import opened Decimals

  type Path = seq<string>

  /** What JSON text holds as it is. */
  datatype Atom = Null | Bool(b: bool) | Num(n: real) | Str(s: string)

  /** A value, with references of some kind to the arrays and plain objects, which have an identity. */
  datatype Val<+R> = Plain(a: Atom) | Undefined | Date(time: int) | BigInt(big: int) | Ref(to: R)

  type Value = Val<nat>

  /** An array or a plain object: its property names in order, and what they hold. */
  datatype Node = Node(isArray: bool, names: seq<string>, vals: map<string, Value>)

  type Graph = map<nat, Node>

  ghost predicate ValidNode(g: Graph, n: Node) {
    && (forall i, j :: 0 <= i < j < |n.names| ==> n.names[i] != n.names[j])
    && (forall x :: x in n.names <==> x in n.vals)
    && (forall x <- n.vals :: ValidVal(g, n.vals[x]))
  }

  ghost predicate ValidVal(g: Graph, v: Value) {
    v.Ref? ==> v.to in g
  }

  ghost predicate ValidGraph(g: Graph) {
    forall id <- g :: ValidNode(g, g[id])
  }

  // ------------------------------------------------------------ the encoding

  /** What the JSON text has in one place: an atom, a nested array or object, or an array of strings that is a path. */
  datatype Json = JPlain(a: Atom) | JSub | JPath(path: Path)

  /** A nested array or object, by the path to it. */
  datatype JNode = JNode(isArray: bool, vals: map<string, Json>)

  datatype Tag = UndefTag | DateTag | BigIntTag | RefTag

  datatype Patch = Patch(path: Path, tag: Tag)

  /** What a value is written as at a path, when memo tells where each object has been written out. */
  function Written(v: Value, path: Path, memo: map<nat, Path>): Json {
    match v
    case Plain(a) => JPlain(a)
    case Undefined => JPlain(Num(0.0))
    case Date(t) => JPlain(Num(t as real))
    case BigInt(n) => JPlain(Str(SignedText(n)))
    case Ref(id) => if id in memo && memo[id] != path then JPath(memo[id]) else JSub
  }

  /** The patch that goes with it. */
  function TagOf(v: Value, path: Path, memo: map<nat, Path>): Option<Tag> {
    match v
    case Undefined => Some(UndefTag)
    case Date(_) => Some(DateTag)
    case BigInt(_) => Some(BigIntTag)
    case Ref(id) => if id in memo && memo[id] != path then Some(RefTag) else None
    case _ => None
  }

  function WrittenNode(n: Node, path: Path, memo: map<nat, Path>): JNode {
    JNode(n.isArray, map x | x in n.vals :: Written(n.vals[x], path + [x], memo))
  }

  /** What the encapsulation has done so far: where each object has been written out, the patches, and the tree. */
  datatype Progress = Progress(memo: map<nat, Path>, types: seq<Patch>, out: map<Path, JNode>)

  ghost predicate Under(tops: map<Path, Value>, q: Path) {
    exists t :: t in tops && t <= q
  }

  /** The objects that have been written out between two points. */
  ghost predicate Between(s: Progress, t: Progress, id: nat) {
    id in t.memo && id !in s.memo
  }

  /** A place that was written between two points: one of the values to be written, or a property of an object written
      out. */
  ghost predicate Place(g: Graph, s: Progress, t: Progress, tops: map<Path, Value>, q: Path, v: Value) {
    (q in tops && tops[q] == v) || exists id, x :: Property(g, s, t, id, x, q, v)
  }

  ghost predicate Property(g: Graph, s: Progress, t: Progress, id: nat, x: string, q: Path, v: Value) {
    Between(s, t, id) && id in g && x in g[id].vals && q == t.memo[id] + [x] && v == g[id].vals[x]
  }

  ghost predicate Grows(s: Progress, t: Progress) {
    forall id <- s.memo :: id in t.memo && t.memo[id] == s.memo[id]
  }

  /** The values at tops, and all objects reached from them for the first time, have been written. */
  ghost predicate Encoded(g: Graph, s: Progress, t: Progress, tops: map<Path, Value>) {
    && Memoized(g, s, t, tops) && Drawn(g, s, t, tops) && Patched(g, s, t, tops)
  }

  ghost predicate Memoized(g: Graph, s: Progress, t: Progress, tops: map<Path, Value>) {
    && t.memo.Keys <= g.Keys
    && Grows(s, t)
    && (forall id :: Between(s, t, id) ==> Under(tops, t.memo[id]) && Place(g, s, t, tops, t.memo[id], Ref(id)))
    && (forall i, j :: Between(s, t, i) && j in t.memo && t.memo[i] == t.memo[j] ==> i == j)
    && (forall q, v :: Place(g, s, t, tops, q, v) && v.Ref? ==> v.to in t.memo)
  }

  ghost predicate Drawn(g: Graph, s: Progress, t: Progress, tops: map<Path, Value>) {
    && (forall id ::
      Between(s, t, id) && id in g ==>
      t.memo[id] in t.out && t.out[t.memo[id]] == WrittenNode(g[id], t.memo[id], t.memo))
    && (forall p :: p in s.out && !Under(tops, p) ==> p in t.out && t.out[p] == s.out[p])
    && (forall p <- t.out :: p in s.out || Home(s, t, p))
  }

  /** An object has been written out at the path. */
  ghost predicate Home(s: Progress, t: Progress, p: Path) {
    exists id :: Between(s, t, id) && t.memo[id] == p
  }

  ghost predicate Patched(g: Graph, s: Progress, t: Progress, tops: map<Path, Value>) {
    && s.types <= t.types
    && (forall i :: |s.types| <= i < |t.types| ==> Justified(g, s, t, tops, t.types[i]))
    && (forall q, v ::
      Place(g, s, t, tops, q, v) ==> TagOf(v, q, t.memo).None? || HasPatch(s, t, Patch(q, TagOf(v, q, t.memo).value)))
    && (forall i, j :: |s.types| <= i < j < |t.types| ==> t.types[i].path != t.types[j].path)
  }

  /** A patch stands at a place that needs it. */
  ghost predicate Justified(g: Graph, s: Progress, t: Progress, tops: map<Path, Value>, p: Patch) {
    Under(tops, p.path) && exists v :: Place(g, s, t, tops, p.path, v) && TagOf(v, p.path, t.memo) == Some(p.tag)
  }

  ghost predicate HasPatch(s: Progress, t: Progress, p: Patch) {
    exists i :: |s.types| <= i < |t.types| && t.types[i] == p
  }

  // --------------------------------------------------------------- composing

  /** No place under one of the values is under one of the others. */
  ghost predicate Apart(a: map<Path, Value>, b: map<Path, Value>) {
    forall x, y :: x in a && y in b ==> !(x <= y) && !(y <= x)
  }

  lemma UnderOne(a: map<Path, Value>, b: map<Path, Value>, q: Path)
    requires Apart(a, b)
    ensures !(Under(a, q) && Under(b, q))
    ensures Under(a + b, q) <==> Under(a, q) || Under(b, q)
  {
    if Under(a, q) {
      var x :| x in a && x <= q;
      assert x in a + b;
    }
    if Under(b, q) {
      var y :| y in b && y <= q;
      assert y in a + b;
    }
  }

  /** What is written with a reference does not change once the object is known. */
  lemma WrittenStable(v: Value, q: Path, m: map<nat, Path>, m': map<nat, Path>)
    requires v.Ref? ==> v.to in m && v.to in m' && m[v.to] == m'[v.to]
    ensures Written(v, q, m) == Written(v, q, m') && TagOf(v, q, m) == TagOf(v, q, m')
  {
  }

  /** A place of either part is a place of the whole, and the other way round. */
  lemma ComposePlaces(
      g: Graph, s: Progress, t: Progress, u: Progress, a: map<Path, Value>, b: map<Path, Value>, q: Path, v: Value)
    requires Grows(s, t) && Grows(t, u) && Apart(a, b)
    ensures Place(g, s, u, a + b, q, v) <==> Place(g, s, t, a, q, v) || Place(g, t, u, b, q, v)
  {
    hide Property;
    forall id, x
      ensures Property(g, s, u, id, x, q, v) <==> Property(g, s, t, id, x, q, v) || Property(g, t, u, id, x, q, v)
    {
      ComposeProperty(g, s, t, u, id, x, q, v);
    }
    assert !(q in a && q in b);
  }

  lemma ComposeProperty(g: Graph, s: Progress, t: Progress, u: Progress, id: nat, x: string, q: Path, v: Value)
    requires Grows(s, t) && Grows(t, u)
    ensures Property(g, s, u, id, x, q, v) <==> Property(g, s, t, id, x, q, v) || Property(g, t, u, id, x, q, v)
  {
  }

  /** Nothing is written yet where something is to be written. */
  ghost predicate Clear(t: Progress, b: map<Path, Value>) {
    forall id <- t.memo :: !Under(b, t.memo[id])
  }

  lemma ComposeMemoized(g: Graph, s: Progress, t: Progress, u: Progress, a: map<Path, Value>, b: map<Path, Value>)
    requires Memoized(g, s, t, a) && Memoized(g, t, u, b) && Apart(a, b) && Clear(t, b)
    ensures Memoized(g, s, u, a + b)
  {
    hide Place, Under, Apart;
    forall id | Between(s, u, id) ensures Under(a + b, u.memo[id]) && Place(g, s, u, a + b, u.memo[id], Ref(id)) {
      UnderOne(a, b, u.memo[id]);
      ComposePlaces(g, s, t, u, a, b, u.memo[id], Ref(id));
      assert if id in t.memo then Between(s, t, id) else Between(t, u, id);
    }
    forall i, j | Between(s, u, i) && j in u.memo && u.memo[i] == u.memo[j] ensures i == j {
      if i in t.memo {
        assert Between(s, t, i);
        assert j in t.memo || Between(t, u, j);
      } else {
        assert Between(t, u, i);
      }
    }
    forall q, v | Place(g, s, u, a + b, q, v) && v.Ref? ensures v.to in u.memo {
      ComposePlaces(g, s, t, u, a, b, q, v);
    }
  }

  lemma ComposeDrawn(g: Graph, s: Progress, t: Progress, u: Progress, a: map<Path, Value>, b: map<Path, Value>)
    requires Memoized(g, s, t, a) && Memoized(g, t, u, b) && Drawn(g, s, t, a) && Drawn(g, t, u, b) && Apart(a, b)
    requires Clear(t, b)
    ensures Drawn(g, s, u, a + b)
  {
    hide Place, Under, Apart, WrittenNode;
    forall id | Between(s, u, id) && id in g
      ensures u.memo[id] in u.out && u.out[u.memo[id]] == WrittenNode(g[id], u.memo[id], u.memo)
    {
      if id in t.memo {
        assert Between(s, t, id);
        NodeStable(g, s, t, u, a, id);
      } else {
        assert Between(t, u, id);
      }
    }
    forall p | p in s.out && !Under(a + b, p) ensures p in u.out && u.out[p] == s.out[p] {
      UnderOne(a, b, p);
    }
  }

  lemma PropertyKnown(g: Graph, s: Progress, t: Progress, a: map<Path, Value>, id: nat, x: string)
    requires Memoized(g, s, t, a) && Between(s, t, id) && id in g && x in g[id].vals
    ensures g[id].vals[x].Ref? ==> g[id].vals[x].to in t.memo
  {
    assert Property(g, s, t, id, x, t.memo[id] + [x], g[id].vals[x]);
    assert Place(g, s, t, a, t.memo[id] + [x], g[id].vals[x]);
  }

  lemma NodeStable(g: Graph, s: Progress, t: Progress, u: Progress, a: map<Path, Value>, id: nat)
    requires Memoized(g, s, t, a) && Grows(t, u) && Between(s, t, id) && id in g
    ensures WrittenNode(g[id], t.memo[id], t.memo) == WrittenNode(g[id], t.memo[id], u.memo)
  {
    hide Written, Memoized;
    var n, p := g[id], t.memo[id];
    forall x | x in n.vals ensures Written(n.vals[x], p + [x], t.memo) == Written(n.vals[x], p + [x], u.memo) {
      PropertyKnown(g, s, t, a, id, x);
      WrittenStable(n.vals[x], p + [x], t.memo, u.memo);
    }
  }

  lemma ComposePatched(g: Graph, s: Progress, t: Progress, u: Progress, a: map<Path, Value>, b: map<Path, Value>)
    requires Memoized(g, s, t, a) && Memoized(g, t, u, b) && Patched(g, s, t, a) && Patched(g, t, u, b) && Apart(a, b)
    ensures Patched(g, s, u, a + b)
  {
    hide Place, Under, Apart, TagOf;
    forall i | |s.types| <= i < |u.types| ensures Justified(g, s, u, a + b, u.types[i]) {
      ComposeJustified(g, s, t, u, a, b, u.types[i], i < |t.types|);
    }
    forall q, v | Place(g, s, u, a + b, q, v)
      ensures TagOf(v, q, u.memo).None? || HasPatch(s, u, Patch(q, TagOf(v, q, u.memo).value))
    {
      ComposePlaces(g, s, t, u, a, b, q, v);
      if Place(g, s, t, a, q, v) {
        WrittenStable(v, q, t.memo, u.memo);
      }
      ComposeHasPatch(s, t, u, q, TagOf(v, q, u.memo));
    }
    forall i, j | |s.types| <= i < j < |u.types| ensures u.types[i].path != u.types[j].path {
      UnderOne(a, b, u.types[i].path);
      if i < |t.types| <= j {
        assert Justified(g, s, t, a, t.types[i]) && Justified(g, t, u, b, u.types[j]);
      }
    }
  }

  lemma ComposeHasPatch(s: Progress, t: Progress, u: Progress, q: Path, tag: Option<Tag>)
    requires s.types <= t.types && t.types <= u.types
    ensures tag.Some? && (HasPatch(s, t, Patch(q, tag.value)) || HasPatch(t, u, Patch(q, tag.value))) ==>
      HasPatch(s, u, Patch(q, tag.value))
  {
  }

  lemma ComposeJustified(
      g: Graph, s: Progress, t: Progress, u: Progress, a: map<Path, Value>, b: map<Path, Value>, p: Patch, first: bool)
    requires Memoized(g, s, t, a) && Memoized(g, t, u, b) && Apart(a, b)
    requires if first then Justified(g, s, t, a, p) else Justified(g, t, u, b, p)
    ensures Justified(g, s, u, a + b, p)
  {
    hide Place, Under, Apart, TagOf;
    UnderOne(a, b, p.path);
    var v :| if first then Place(g, s, t, a, p.path, v) && TagOf(v, p.path, t.memo) == Some(p.tag)
      else Place(g, t, u, b, p.path, v) && TagOf(v, p.path, u.memo) == Some(p.tag);
    ComposePlaces(g, s, t, u, a, b, p.path, v);
    if first {
      WrittenStable(v, p.path, t.memo, u.memo);
    }
  }

  /** Values that are apart may be written one after the other. */
  lemma Compose(g: Graph, s: Progress, t: Progress, u: Progress, a: map<Path, Value>, b: map<Path, Value>)
    requires Encoded(g, s, t, a) && Encoded(g, t, u, b) && Apart(a, b) && Clear(t, b)
    ensures Encoded(g, s, u, a + b)
  {
    hide Memoized, Drawn, Patched;
    ComposeMemoized(g, s, t, u, a, b);
    ComposeDrawn(g, s, t, u, a, b);
    ComposePatched(g, s, t, u, a, b);
  }

  // ------------------------------------------------------- single encodings

  lemma EncodedNothing(g: Graph, s: Progress)
    requires s.memo.Keys <= g.Keys
    ensures Encoded(g, s, s, map[])
  {
  }

  /** A scalar, or a reference to an object that has been written out before. */
  lemma EncodedInPlace(g: Graph, s: Progress, path: Path, v: Value)
    requires s.memo.Keys <= g.Keys && (v.Ref? ==> v.to in s.memo)
    ensures var t := s.(types :=
        s.types + if TagOf(v, path, s.memo).Some? then [Patch(path, TagOf(v, path, s.memo).value)] else []);
      Encoded(g, s, t, map[path := v])
  {
    var tag := TagOf(v, path, s.memo);
    var tops := map[path := v];
    var t := s.(types := s.types + if tag.Some? then [Patch(path, tag.value)] else []);
    assert path in tops && path <= path;
    forall q, w | Place(g, s, t, tops, q, w) ensures q == path && w == v {
    }
    if tag.Some? {
      assert t.types[|s.types|] == Patch(path, tag.value);
      assert Place(g, s, t, tops, path, v);
      assert Justified(g, s, t, tops, t.types[|s.types|]);
    }
  }

  /** The properties of an object, by the paths at which they are written. */
  ghost function Tops(n: Node, path: Path, names: seq<string>): map<Path, Value>
    requires forall x <- names :: x in n.vals
  {
    map q | q in PathsOf(path, names) :: n.vals[q[|path|]]
  }

  ghost function PathsOf(path: Path, names: seq<string>): (r: set<Path>)
    ensures forall q :: q in r <==> |q| == |path| + 1 && path <= q && q[|path|] in names
  {
    var r := set x | x in names :: path + [x];
    assert forall q :: |q| == |path| + 1 && path <= q && q[|path|] in names ==> q == path + [q[|path|]];
    r
  }

  /** An object met for the first time is remembered at once, so that its properties may refer to it. */
  ghost function Entered(s: Progress, path: Path, id: nat): Progress {
    s.(memo := s.memo[id := path])
  }

  /** It is drawn when its properties have been written. */
  ghost function Left(g: Graph, t: Progress, path: Path, id: nat): Progress
    requires id in g
  {
    t.(out := t.out[path := WrittenNode(g[id], path, t.memo)])
  }

  ghost predicate Writing(g: Graph, s: Progress, t: Progress, path: Path, id: nat) {
    && id in g && id !in s.memo && s.memo.Keys <= g.Keys && ValidNode(g, g[id])
    && Clear(s, map[path := Ref(id)])
    && Encoded(g, Entered(s, path, id), t, Tops(g[id], path, g[id].names))
  }

  lemma EncodedObject(g: Graph, s: Progress, t: Progress, path: Path, id: nat)
    requires Writing(g, s, t, path, id)
    ensures Encoded(g, s, Left(g, t, path, id), map[path := Ref(id)])
  {
    hide Memoized, Drawn, Patched, Clear, ValidNode;
    ObjectMemoized(g, s, t, path, id);
    ObjectDrawn(g, s, t, path, id);
    ObjectPatched(g, s, t, path, id);
  }

  lemma UnderProperty(n: Node, path: Path, names: seq<string>, v: Value, q: Path)
    requires forall x <- names :: x in n.vals
    ensures Under(Tops(n, path, names), q) ==> Under(map[path := v], q) && q != path
    ensures Under(map[path := v], q) <==> path <= q
  {
    var one := map[path := v];
    assert path in one;
    if Under(Tops(n, path, names), q) {
      var t :| t in Tops(n, path, names) && t <= q;
      assert path <= q;
    }
  }

  lemma ObjectMemoized(g: Graph, s: Progress, t: Progress, path: Path, id: nat)
    requires Writing(g, s, t, path, id)
    ensures Memoized(g, s, Left(g, t, path, id), map[path := Ref(id)])
  {
    hide Drawn, Patched, Under, Place, Tops;
    var s1, t', one, tops := Entered(s, path, id), Left(g, t, path, id), map[path := Ref(id)],
      Tops(g[id], path, g[id].names);
    assert t.memo[id] == path;
    forall i | Between(s, t', i) ensures Under(one, t.memo[i]) && Place(g, s, t', one, t.memo[i], Ref(i)) {
      ObjectPlaces(g, s, t, path, id, t.memo[i], Ref(i));
      SamePlaces(g, s, t, t', one, t.memo[i], Ref(i));
      UnderProperty(g[id], path, g[id].names, Ref(id), t.memo[i]);
      assert i == id || Between(s1, t, i);
    }
    forall i, j | Between(s, t', i) && j in t.memo && t.memo[i] == t.memo[j] ensures i == j {
      UnderProperty(g[id], path, g[id].names, Ref(id), path);
      assert j == id || j in s.memo || Between(s1, t, j);
      assert i == id || Between(s1, t, i);
    }
    forall q, v | Place(g, s, t', one, q, v) && v.Ref? ensures v.to in t.memo {
      SamePlaces(g, s, t, t', one, q, v);
      ObjectPlaces(g, s, t, path, id, q, v);
    }
  }

  /** Places depend on the memo only. */
  lemma SamePlaces(g: Graph, s: Progress, t: Progress, t': Progress, tops: map<Path, Value>, q: Path, v: Value)
    requires t.memo == t'.memo
    ensures Place(g, s, t, tops, q, v) == Place(g, s, t', tops, q, v)
  {
    hide Property;
    forall id, x ensures Property(g, s, t, id, x, q, v) == Property(g, s, t', id, x, q, v) {
      SameProperty(g, s, t, t', id, x, q, v);
    }
  }

  lemma SameProperty(g: Graph, s: Progress, t: Progress, t': Progress, id: nat, x: string, q: Path, v: Value)
    requires t.memo == t'.memo
    ensures Property(g, s, t, id, x, q, v) == Property(g, s, t', id, x, q, v)
  {
  }

  lemma ObjectDrawn(g: Graph, s: Progress, t: Progress, path: Path, id: nat)
    requires Writing(g, s, t, path, id)
    ensures Drawn(g, s, Left(g, t, path, id), map[path := Ref(id)])
  {
    hide Patched, Under, Place, Tops, WrittenNode;
    var s1, t', one := Entered(s, path, id), Left(g, t, path, id), map[path := Ref(id)];
    assert t.memo[id] == path;
    forall i | Between(s, t', i) && i in g
      ensures t.memo[i] in t'.out && t'.out[t.memo[i]] == WrittenNode(g[i], t.memo[i], t.memo)
    {
      if i != id {
        assert Between(s1, t, i);
        UnderProperty(g[id], path, g[id].names, Ref(id), t.memo[i]);
      }
    }
    forall p | p in s.out && !Under(one, p) ensures p in t'.out && t'.out[p] == s.out[p] {
      UnderProperty(g[id], path, g[id].names, Ref(id), p);
    }
  }

  lemma ObjectPatched(g: Graph, s: Progress, t: Progress, path: Path, id: nat)
    requires Writing(g, s, t, path, id)
    ensures Patched(g, s, Left(g, t, path, id), map[path := Ref(id)])
  {
    hide Drawn, Under, Place, Tops, WrittenNode;
    var s1, t', one, tops := Entered(s, path, id), Left(g, t, path, id), map[path := Ref(id)],
      Tops(g[id], path, g[id].names);
    assert t.memo[id] == path;
    forall i | |s.types| <= i < |t.types| ensures Justified(g, s, t', one, t.types[i]) {
      var p := t.types[i];
      assert Justified(g, s1, t, tops, p);
      var v :| Place(g, s1, t, tops, p.path, v) && TagOf(v, p.path, t.memo) == Some(p.tag);
      ObjectPlaces(g, s, t, path, id, p.path, v);
      SamePlaces(g, s, t, t', one, p.path, v);
      UnderProperty(g[id], path, g[id].names, Ref(id), p.path);
    }
    forall q, v | Place(g, s, t', one, q, v)
      ensures TagOf(v, q, t.memo).None? || HasPatch(s, t', Patch(q, TagOf(v, q, t.memo).value))
    {
      SamePlaces(g, s, t, t', one, q, v);
      ObjectPlaces(g, s, t, path, id, q, v);
      if TagOf(v, q, t.memo).Some? {
        assert HasPatch(s1, t, Patch(q, TagOf(v, q, t.memo).value));
      }
    }
  }

  /** The places of the properties, and of what is under them, are the places of the object other than its own. */
  lemma ObjectPlaces(g: Graph, s: Progress, t: Progress, path: Path, id: nat, q: Path, v: Value)
    requires id in g && id !in s.memo && ValidNode(g, g[id]) && Grows(Entered(s, path, id), t)
    ensures Place(g, s, t, map[path := Ref(id)], q, v)
      <==> (q == path && v == Ref(id)) || Place(g, Entered(s, path, id), t, Tops(g[id], path, g[id].names), q, v)
  {
    hide Property, Tops, ValidNode;
    var s1 := Entered(s, path, id);
    forall i, x
      ensures Property(g, s, t, i, x, q, v) <==>
        Property(g, s1, t, i, x, q, v) || (i == id && Property(g, s, t, id, x, q, v))
    {
      EnteredProperty(g, s, t, path, id, i, x, q, v);
    }
    OwnProperties(g, s, t, path, id, q, v);
  }

  lemma EnteredProperty(g: Graph, s: Progress, t: Progress, path: Path, id: nat, i: nat, x: string, q: Path, v: Value)
    requires id !in s.memo
    ensures Property(g, s, t, i, x, q, v) <==>
      Property(g, Entered(s, path, id), t, i, x, q, v) || (i == id && Property(g, s, t, id, x, q, v))
  {
  }

  /** The properties of the object itself are what is to be written. */
  lemma OwnProperties(g: Graph, s: Progress, t: Progress, path: Path, id: nat, q: Path, v: Value)
    requires id in g && id !in s.memo && ValidNode(g, g[id]) && id in t.memo && t.memo[id] == path
    ensures var tops := Tops(g[id], path, g[id].names);
      (q in tops && tops[q] == v) <==> exists x :: Property(g, s, t, id, x, q, v)
  {
    var tops := Tops(g[id], path, g[id].names);
    if q in tops && tops[q] == v {
      assert q == path + [q[|path|]];
      assert Property(g, s, t, id, q[|path|], q, v);
    }
  }

  lemma EnterMeansWriting(g: Graph, s: Progress, t: Progress, path: Path, id: nat)
    requires ValidGraph(g) && id in g && id !in s.memo && s.memo.Keys <= g.Keys && Clear(s, map[path := Ref(id)])
    requires Encoded(g, Entered(s, path, id), t, Tops(g[id], path, g[id].names))
    ensures Writing(g, s, t, path, id)
  {
  }

  lemma WrittenAgain(g: Graph, s: Progress, t: Progress, path: Path, v: Value)
    requires v.Ref? && Writing(g, s, t, path, v.to)
    ensures Written(v, path, t.memo) == JSub && t.memo.Keys <= g.Keys
  {
  }

  lemma NotHere(s: Progress, path: Path, v: Value)
    requires Clear(s, map[path := v])
    ensures v.Ref? && v.to in s.memo ==> s.memo[v.to] != path
  {
    assert path in map[path := v] && path <= path;
  }

  lemma NoTops(n: Node, path: Path)
    ensures Tops(n, path, []) == map[]
  {
  }

  /** Nothing is written yet where the next property goes. */
  lemma NextIsClear(g: Graph, s: Progress, t: Progress, n: Node, path: Path, id: nat, k: nat)
    requires ValidGraph(g) && id in g && g[id] == n && k < |n.names| && id in s.memo && s.memo[id] == path
    requires Alone(s.memo, path, id)
    requires Encoded(g, s, t, Tops(n, path, n.names[..k]))
    ensures ValidVal(g, n.vals[n.names[k]]) && Clear(t, map[path + [n.names[k]] := n.vals[n.names[k]]])
  {
    hide Under, Place, Tops, Apart, Drawn, Patched;
    var next := map[path + [n.names[k]] := n.vals[n.names[k]]];
    var tops := Tops(n, path, n.names[..k]);
    NextIsApart(g, n, path, k);
    forall i | i in t.memo ensures !Under(next, t.memo[i]) {
      UnderOne(tops, next, t.memo[i]);
      UnderNext(path, n.names[k], n.vals[n.names[k]], t.memo[i]);
      assert i in s.memo || Between(s, t, i);
    }
  }

  lemma UnderNext(path: Path, x: string, v: Value, q: Path)
    ensures Under(map[path + [x] := v], q) ==> path <= q && q != path
  {
  }

  /** Only the object itself has been written at its path, and nothing below. */
  ghost predicate Alone(m: map<nat, Path>, path: Path, id: nat) {
    forall i <- m :: path <= m[i] ==> i == id
  }

  lemma EnteredAlone(s: Progress, path: Path, v: Value, id: nat)
    requires Clear(s, map[path := v])
    ensures Alone(s.memo[id := path], path, id)
  {
    assert path in map[path := v];
  }

  lemma NextIsApart(g: Graph, n: Node, path: Path, k: nat)
    requires ValidNode(g, n) && k < |n.names|
    ensures Apart(Tops(n, path, n.names[..k]), map[path + [n.names[k]] := n.vals[n.names[k]]])
  {
  }

  /** With the next property the encoding goes one further. */
  lemma NextTops(g: Graph, s: Progress, t: Progress, u: Progress, n: Node, path: Path, k: nat)
    requires ValidNode(g, n) && k < |n.names|
    requires Encoded(g, s, t, Tops(n, path, n.names[..k]))
    requires Encoded(g, t, u, map[path + [n.names[k]] := n.vals[n.names[k]]])
    requires Clear(t, map[path + [n.names[k]] := n.vals[n.names[k]]])
    ensures Encoded(g, s, u, Tops(n, path, n.names[..k + 1])) && s.memo.Keys <= t.memo.Keys <= u.memo.Keys
    ensures Grows(t, u)
  {
    hide Encoded, Clear;
    var next := map[path + [n.names[k]] := n.vals[n.names[k]]];
    NextIsApart(g, n, path, k);
    Compose(g, s, t, u, Tops(n, path, n.names[..k]), next);
    TopsMore(g, n, path, k);
    MemoGrows(g, s, t, Tops(n, path, n.names[..k]));
    MemoGrows(g, t, u, next);
  }

  lemma MemoGrows(g: Graph, s: Progress, t: Progress, tops: map<Path, Value>)
    requires Encoded(g, s, t, tops)
    ensures s.memo.Keys <= t.memo.Keys && Grows(s, t)
  {
  }

  lemma TopsMore(g: Graph, n: Node, path: Path, k: nat)
    requires ValidNode(g, n) && k < |n.names|
    ensures Tops(n, path, n.names[..k]) + map[path + [n.names[k]] := n.vals[n.names[k]]]
      == Tops(n, path, n.names[..k + 1])
  {
    hide Tops, ValidNode;
    NamesKnown(g, n);
    var x, one := n.names[k], map[path + [n.names[k]] := n.vals[n.names[k]]];
    var a, b := Tops(n, path, n.names[..k]) + one, Tops(n, path, n.names[..k + 1]);
    assert n.names[..k + 1] == n.names[..k] + [x];
    forall q ensures q in a <==> q in b {
      TopsAt(n, path, n.names[..k], q);
      TopsAt(n, path, n.names[..k + 1], q);
    }
    forall q | q in a ensures a[q] == b[q] {
      TopsAt(n, path, n.names[..k], q);
      TopsAt(n, path, n.names[..k + 1], q);
    }
  }

  lemma NamesKnown(g: Graph, n: Node)
    requires ValidNode(g, n)
    ensures forall x <- n.names :: x in n.vals
  {
  }

  lemma TopsAt(n: Node, path: Path, names: seq<string>, q: Path)
    requires forall x <- names :: x in n.vals
    ensures q in Tops(n, path, names) <==> |q| == |path| + 1 && q[|path|] in names && q == path + [q[|path|]]
    ensures q in Tops(n, path, names) ==> Tops(n, path, names)[q] == n.vals[q[|path|]]
  {
  }

  /** The first properties have been written, as they should be by now. */
  ghost predicate KnownSoFar(n: Node, names: seq<string>, vals: map<string, Json>, path: Path, memo: map<nat, Path>) {
    && (forall x :: x in vals <==> x in names)
    && (forall x <- vals :: x in n.vals && vals[x] == Written(n.vals[x], path + [x], memo))
  }

  /** What has been written of the properties stays right. */
  lemma KnownStable(
      g: Graph, s: Progress, t: Progress, u: Progress, n: Node, path: Path, k: nat, vals: map<string, Json>, j: Json)
    requires ValidNode(g, n) && k < |n.names| && Encoded(g, s, t, Tops(n, path, n.names[..k])) && Grows(t, u)
    requires KnownSoFar(n, n.names[..k], vals, path, t.memo)
    requires j == Written(n.vals[n.names[k]], path + [n.names[k]], u.memo)
    ensures KnownSoFar(n, n.names[..k + 1], vals[n.names[k] := j], path, u.memo)
  {
    hide Written, Tops;
    assert n.names[..k + 1] == n.names[..k] + [n.names[k]];
    forall x | x in vals ensures vals[x] == Written(n.vals[x], path + [x], u.memo) {
      var tops := Tops(n, path, n.names[..k]);
      TopsAt(n, path, n.names[..k], path + [x]);
      assert Place(g, s, t, tops, path + [x], n.vals[x]);
      WrittenStable(n.vals[x], path + [x], t.memo, u.memo);
    }
  }

  lemma AllWritten(g: Graph, n: Node, path: Path, vals: map<string, Json>, memo: map<nat, Path>)
    requires ValidNode(g, n) && KnownSoFar(n, n.names, vals, path, memo)
    ensures JNode(n.isArray, vals) == WrittenNode(n, path, memo)
  {
    hide Written;
    assert vals.Keys == n.vals.Keys;
  }

  lemma NothingKnown(n: Node, path: Path, memo: map<nat, Path>)
    ensures KnownSoFar(n, [], map[], path, memo)
  {
  }

  lemma GraphNode(g: Graph, id: nat)
    requires ValidGraph(g) && id in g
    ensures ValidNode(g, g[id])
  {
  }

  // -------------------------------------------------------------- encapsulate

  /** internalEncapsulate, on the memo and the list of patches that it shares with its recursive calls. */
  class Encapsulation {
    const g: Graph
    var memo: map<nat, Path>
    var types: seq<Patch>
    var out: map<Path, JNode>

    ghost function State(): Progress
      reads this
    {
      Progress(memo, types, out)
    }

    constructor (g: Graph)
      ensures this.g == g && State() == Progress(map[], [], map[])
    {
      this.g, memo, types, out := g, map[], [], map[];
    }

    method Encode(v: Value, path: Path) returns (j: Json)
      requires ValidGraph(g) && ValidVal(g, v) && memo.Keys <= g.Keys && Clear(State(), map[path := v])
      modifies this
      ensures Encoded(g, old(State()), State(), map[path := v]) && memo.Keys <= g.Keys
      ensures j == Written(v, path, memo)
      decreases g.Keys - memo.Keys, 0
    {
      hide Encoded, Clear, WrittenNode, Written, Writing, ValidNode;
      if v.Ref? && v.to !in memo {
        ghost var s := State();
        EnteredAlone(s, path, v, v.to);
        memo := memo[v.to := path];
        assert v.to in g.Keys - old(memo.Keys);
        var vals := EncodeProperties(v.to, path);
        EnterMeansWriting(g, s, State(), path, v.to);
        EncodedObject(g, s, State(), path, v.to);
        WrittenAgain(g, s, State(), path, v);
        out := out[path := JNode(g[v.to].isArray, vals)];
        j := JSub;
      } else {
        NotHere(State(), path, v);
        EncodedInPlace(g, State(), path, v);
        j := EncodeInPlace(v, path);
      }
    }

    /** A scalar, or a reference to an object that has been met before. */
    method EncodeInPlace(v: Value, path: Path) returns (j: Json)
      requires v.Ref? ==> v.to in memo && memo[v.to] != path
      modifies this`types
      ensures types == old(types) + if TagOf(v, path, memo).Some? then [Patch(path, TagOf(v, path, memo).value)] else []
      ensures j == Written(v, path, memo)
    {
      match v {
        case Ref(id) =>
          types := types + [Patch(path, RefTag)];
          j := JPath(memo[id]);
        case Plain(a) =>
          j := JPlain(a);
        case Undefined =>
          types := types + [Patch(path, UndefTag)];
          j := JPlain(Num(0.0));
        case Date(t) =>
          types := types + [Patch(path, DateTag)];
          j := JPlain(Num(t as real));
        case BigInt(n) =>
          types := types + [Patch(path, BigIntTag)];
          j := JPlain(Str(SignedText(n)));
      }
    }

    /** The properties of an object, in order. */
    method EncodeProperties(id: nat, path: Path) returns (vals: map<string, Json>)
      requires ValidGraph(g) && id in memo && id in g && memo[id] == path && memo.Keys <= g.Keys
      requires Alone(memo, path, id)
      modifies this
      ensures Encoded(g, old(State()), State(), Tops(g[id], path, g[id].names)) && memo.Keys <= g.Keys
      ensures JNode(g[id].isArray, vals) == WrittenNode(g[id], path, memo)
      decreases g.Keys - memo.Keys, 1
    {
      hide Encoded, Clear, Written, WrittenNode, Tops, Alone, ValidNode, ValidVal, ValidGraph, Grows, KnownSoFar;
      var n := g[id];
      ghost var s := State();
      vals := map[];
      NoTops(n, path);
      GraphNode(g, id);
      NothingKnown(n, path, memo);
      EncodedNothing(g, s);
      for k := 0 to |n.names|
        invariant memo.Keys <= g.Keys && s.memo.Keys <= memo.Keys
        invariant Encoded(g, s, State(), Tops(n, path, n.names[..k]))
        invariant KnownSoFar(n, n.names[..k], vals, path, memo)
      {
        var x := n.names[k];
        ghost var t := State();
        NextIsClear(g, s, t, n, path, id, k);
        var j := Encode(n.vals[x], path + [x]);
        NextTops(g, s, t, State(), n, path, k);
        KnownStable(g, s, t, State(), n, path, k, vals, j);
        vals := vals[x := j];
      }
      assert n.names[..|n.names|] == n.names;
      AllWritten(g, n, path, vals, memo);
    }
  }
}

