/**
 * The routing trie of deep_log/config.py. `Logger` nodes hold an insertion-ordered
 * mapping from segment pattern to child and an optional value; `Loggers` inserts
 * values at slash-separated paths and finds, for a concrete path, the value of the
 * deepest accepted node on the glob-matched walk.
 */
module Config {
  import opened Wrappers
  import opened Strings
  import Glob

  /** A trie node; `children` keeps insertion order, as the OrderedDict does. */
  datatype Node<V> = Node(name: string, children: seq<(string, Node<V>)>, value: Option<V>)

  /** A fresh valueless node, as `Logger(name)` builds it. */
  function Leaf<V>(name: string): Node<V>
  {
    Node(name, [], None)
  }

  /** Keys of an OrderedDict are distinct. */
  predicate UniqueKeys<V>(children: seq<(string, Node<V>)>)
  {
    forall i, j :: 0 <= i < j < |children| ==> children[i].0 != children[j].0
  }

  /** Index of the child registered under exactly `key`. */
  function KeyIndex<V>(children: seq<(string, Node<V>)>, key: string): (r: Option<nat>)
    ensures r.Some? ==> r.value < |children| && children[r.value].0 == key
    ensures r.Some? ==> forall j :: 0 <= j < r.value ==> children[j].0 != key
    ensures r.None? ==> forall j :: 0 <= j < |children| ==> children[j].0 != key
  {
    if children == [] then None
    else if children[0].0 == key then Some(0)
    else match KeyIndex(children[1..], key)
      case None => None
      case Some(i) => Some(i + 1)
  }

  /** Index of the first child, in insertion order, whose pattern glob-matches `name`. */
  function FirstMatch<V>(children: seq<(string, Node<V>)>, name: string): (r: Option<nat>)
    ensures r.Some? ==> r.value < |children| && Glob.Match(children[r.value].0, name)
    ensures r.Some? ==> forall j :: 0 <= j < r.value ==> !Glob.Match(children[j].0, name)
    ensures r.None? ==> forall j :: 0 <= j < |children| ==> !Glob.Match(children[j].0, name)
  {
    if children == [] then None
    else if Glob.Match(children[0].0, name) then Some(0)
    else match FirstMatch(children[1..], name)
      case None => None
      case Some(i) => Some(i + 1)
  }

  /**
   * `Logger.get_child(name, fuzzy)`: exact key lookup, or the first child in
   * insertion order whose pattern matches `name`.
   */
  function GetChild<V>(n: Node<V>, name: string, fuzzy: bool): Option<Node<V>>
  {
    var k := if fuzzy then FirstMatch(n.children, name) else KeyIndex(n.children, name);
    match k
    case None => None
    case Some(i) => Some(n.children[i].1)
  }

  /**
   * Non-fuzzy lookup is exact key lookup; fuzzy lookup returns the first child in
   * insertion order whose pattern matches, and `None` when none does.
   */
  lemma {:induction false} GetChildIsFirstMatch<V>(n: Node<V>, name: string, fuzzy: bool)
    ensures !fuzzy ==> (GetChild(n, name, fuzzy).Some? <==> exists i :: 0 <= i < |n.children| && n.children[i].0 == name)
    ensures fuzzy ==> (GetChild(n, name, fuzzy).Some? <==> exists i :: 0 <= i < |n.children| && Glob.Match(n.children[i].0, name))
    ensures GetChild(n, name, fuzzy).Some? ==> exists i :: (0 <= i < |n.children| && GetChild(n, name, fuzzy).value == n.children[i].1
      && (if fuzzy then Glob.Match(n.children[i].0, name) && forall j :: 0 <= j < i ==> !Glob.Match(n.children[j].0, name)
          else n.children[i].0 == name && forall j :: 0 <= j < i ==> n.children[j].0 != name))
  {
    var k := if fuzzy then FirstMatch(n.children, name) else KeyIndex(n.children, name);
    if k.Some? {
      assert n.children[k.value].1 == GetChild(n, name, fuzzy).value;
    }
  }

  /**
   * `Logger.upsert_child(name)`: the node (unchanged when `name` is a key) and the
   * index of the child under `name`, appended as a fresh leaf when it was absent.
   */
  function UpsertChild<V>(n: Node<V>, name: string): (r: (Node<V>, nat))
    ensures r.1 < |r.0.children| && r.0.children[r.1].0 == name
    ensures r.0.name == n.name && r.0.value == n.value
    ensures KeyIndex(n.children, name).Some? ==> r.0 == n && r.1 == KeyIndex(n.children, name).value
    ensures KeyIndex(n.children, name).None? ==>
      r.0.children == n.children + [(name, Leaf(name))] && r.1 == |n.children|
    ensures UniqueKeys(n.children) ==> UniqueKeys(r.0.children)
  {
    match KeyIndex(n.children, name)
    case Some(i) => (n, i)
    case None => (n.(children := n.children + [(name, Leaf(name))]), |n.children|)
  }

  /** The path segments `insert` and `find` visit: `name.split("/")` without blank pieces. */
  function NonBlank(parts: seq<string>): (segs: seq<string>)
    ensures |segs| <= |parts|
    ensures forall i :: 0 <= i < |segs| ==> !IsBlank(segs[i])
  {
    if parts == [] then []
    else NonBlank(parts[..|parts| - 1]) + (if IsBlank(parts[|parts| - 1]) then [] else [parts[|parts| - 1]])
  }

  function Segments(name: string): seq<string>
  {
    NonBlank(Split(name, '/'))
  }

  lemma {:induction false} NonBlankAppend(a: seq<string>, b: seq<string>)
    ensures NonBlank(a + b) == NonBlank(a) + NonBlank(b)
    decreases |b|
  {
    if b == [] {
      assert a + b == a;
    } else {
      NonBlankAppend(a, b[..|b| - 1]);
      assert (a + b)[..|a + b| - 1] == a + b[..|b| - 1];
    }
  }

  lemma {:induction false} NonBlankOfNonBlank(segs: seq<string>)
    requires forall i :: 0 <= i < |segs| ==> !IsBlank(segs[i])
    ensures NonBlank(segs) == segs
  {
    if segs != [] {
      NonBlankOfNonBlank(segs[..|segs| - 1]);
    }
  }

  /**
   * A path made of non-blank, slash-free segments splits back into them: any path
   * reaches the same node as its canonical form, so "/a//b/" and "a/b" coincide.
   */
  lemma {:induction false} SegmentsOfJoin(segs: seq<string>)
    requires |segs| >= 1
    requires forall i :: 0 <= i < |segs| ==> '/' !in segs[i] && !IsBlank(segs[i])
    ensures Segments(Join(segs, '/')) == segs
  {
    SplitJoin(segs, '/');
    NonBlankOfNonBlank(segs);
  }

  /** Separators and blanks alone give no segment: such a path names the root. */
  lemma {:induction false} SegmentsOfSeparators(name: string)
    requires forall i :: 0 <= i < |name| ==> name[i] == '/' || IsSpace(name[i])
    ensures Segments(name) == []
  {
    var parts := Split(name, '/');
    forall k | 0 <= k < |parts| ensures IsBlank(parts[k]) {
      PiecesOfSeparators(name, k);
    }
    NonBlankOfBlank(parts);
  }

  lemma {:induction false} PiecesOfSeparators(name: string, k: nat)
    requires forall i :: 0 <= i < |name| ==> name[i] == '/' || IsSpace(name[i])
    requires k < |Split(name, '/')|
    ensures IsBlank(Split(name, '/')[k])
  {
    if name != [] {
      var rest := Split(name[1..], '/');
      if name[0] == '/' {
        if k > 0 { PiecesOfSeparators(name[1..], k - 1); }
      } else if k == 0 {
        PiecesOfSeparators(name[1..], 0);
      } else {
        PiecesOfSeparators(name[1..], k);
      }
    }
  }

  lemma {:induction false} NonBlankOfBlank(parts: seq<string>)
    requires forall i :: 0 <= i < |parts| ==> IsBlank(parts[i])
    ensures NonBlank(parts) == []
  {
    if parts != [] {
      NonBlankOfBlank(parts[..|parts| - 1]);
    }
  }

  /** The trie after `insert`: the nodes along `segs` are upserted and the last one gets `v`. */
  function InsertAt<V>(n: Node<V>, segs: seq<string>, v: Option<V>): (r: Node<V>)
    ensures r.name == n.name
    decreases |segs|
  {
    if segs == [] then n.(value := v)
    else
      var (m, i) := UpsertChild(n, segs[0]);
      m.(children := m.children[i := (segs[0], InsertAt(m.children[i].1, segs[1..], v))])
  }

  /** The node an exact (non-fuzzy) walk of `segs` reaches, if any. */
  function NodeAt<V>(n: Node<V>, segs: seq<string>): Option<Node<V>>
    decreases |segs|
  {
    if segs == [] then Some(n)
    else match KeyIndex(n.children, segs[0])
      case None => None
      case Some(i) => NodeAt(n.children[i].1, segs[1..])
  }

  /** The value stored at exactly `segs`; `None` when there is no node or it has no value. */
  function ValueAt<V>(n: Node<V>, segs: seq<string>): Option<V>
  {
    match NodeAt(n, segs)
    case None => None
    case Some(m) => m.value
  }

  /** After `insert(p, v)` an exact walk of `p`'s segments reaches a node holding `v`. */
  lemma {:induction false} InsertReaches<V>(n: Node<V>, segs: seq<string>, v: Option<V>)
    ensures NodeAt(InsertAt(n, segs, v), segs).Some?
    ensures ValueAt(InsertAt(n, segs, v), segs) == v
    decreases |segs|
  {
    if segs != [] {
      var (m, i) := UpsertChild(n, segs[0]);
      var c := InsertAt(m.children[i].1, segs[1..], v);
      var r := m.(children := m.children[i := (segs[0], c)]);
      assert r == InsertAt(n, segs, v);
      InsertReaches(m.children[i].1, segs[1..], v);
      KeyIndexAfterReplace(m.children, i, segs[0], c, segs[0]);
      assert KeyIndex(r.children, segs[0]) == Some(i) by {
        UpsertIndex(n, segs[0]);
      }
    }
  }

  /** The index `UpsertChild` returns is the first (only) child under that key. */
  lemma {:induction false} UpsertIndex<V>(n: Node<V>, key: string)
    ensures KeyIndex(UpsertChild(n, key).0.children, key) == Some(UpsertChild(n, key).1)
  {
    var (m, i) := UpsertChild(n, key);
    if KeyIndex(n.children, key).None? {
      KeyIndexAppend(n.children, key, Leaf(key), key);
    }
  }

  lemma {:induction false} KeyIndexAppend<V>(children: seq<(string, Node<V>)>, key: string, c: Node<V>, q: string)
    ensures KeyIndex(children + [(key, c)], q) ==
      if KeyIndex(children, q).Some? then KeyIndex(children, q)
      else if q == key then Some(|children|) else None
  {
    if children != [] {
      assert (children + [(key, c)])[1..] == children[1..] + [(key, c)];
      KeyIndexAppend(children[1..], key, c, q);
    }
  }

  /** Replacing the node under a key keeps every key's index. */
  lemma {:induction false} KeyIndexAfterReplace<V>(children: seq<(string, Node<V>)>, i: nat, key: string, c: Node<V>, q: string)
    requires i < |children| && children[i].0 == key
    ensures KeyIndex(children[i := (key, c)], q) == KeyIndex(children, q)
  {
    if i > 0 {
      assert children[i := (key, c)][1..] == children[1..][i - 1 := (key, c)];
      KeyIndexAfterReplace(children[1..], i - 1, key, c, q);
    }
  }

  lemma {:induction false} LeafHasNoValues<V>(name: string, q: seq<string>)
    ensures ValueAt(Leaf<V>(name), q) == None
  {
  }

  /** One step of an exact lookup: the value under `q` is the value under `q[1..]` in the child keyed `q[0]`. */
  lemma {:induction false} ValueAtStep<V>(n: Node<V>, q: seq<string>)
    requires q != []
    ensures ValueAt(n, q) == match KeyIndex(n.children, q[0])
      case None => None
      case Some(k) => ValueAt(n.children[k].1, q[1..])
  {
  }

  /** `upsert_child` leaves the other keys where they were. */
  lemma {:induction false} UpsertOther<V>(n: Node<V>, key: string, q: string)
    requires q != key
    ensures KeyIndex(UpsertChild(n, key).0.children, q) == KeyIndex(n.children, q)
    ensures KeyIndex(n.children, q).Some? ==>
      UpsertChild(n, key).0.children[KeyIndex(n.children, q).value] == n.children[KeyIndex(n.children, q).value]
  {
    if KeyIndex(n.children, key).None? {
      KeyIndexAppend(n.children, key, Leaf(key), q);
    }
  }

  /** `insert(p, v)` changes no value except the one at `p`. */
  lemma {:induction false} InsertKeepsOthers<V>(n: Node<V>, segs: seq<string>, v: Option<V>, q: seq<string>)
    requires q != segs
    ensures ValueAt(InsertAt(n, segs, v), q) == ValueAt(n, q)
    decreases |segs|, 1
  {
    if segs == [] {
      assert q != [];
    } else if q != [] {
      if q[0] == segs[0] {
        InsertKeepsBelow(n, segs, v, q);
      } else {
        InsertKeepsSibling(n, segs, v, q);
      }
    }
  }

  /** A path leaving the root by another key than the inserted one keeps its value. */
  lemma {:induction false} InsertKeepsSibling<V>(n: Node<V>, segs: seq<string>, v: Option<V>, q: seq<string>)
    requires segs != [] && q != [] && q[0] != segs[0]
    ensures ValueAt(InsertAt(n, segs, v), q) == ValueAt(n, q)
  {
    var (m, i) := UpsertChild(n, segs[0]);
    var c := InsertAt(m.children[i].1, segs[1..], v);
    var r := InsertAt(n, segs, v);
    assert r.children == m.children[i := (segs[0], c)];
    KeyIndexAfterReplace(m.children, i, segs[0], c, q[0]);
    UpsertOther(n, segs[0], q[0]);
    ValueAtStep(r, q);
    ValueAtStep(n, q);
  }

  /** A different path through the inserted key's child keeps its value there. */
  lemma {:induction false} InsertKeepsBelow<V>(n: Node<V>, segs: seq<string>, v: Option<V>, q: seq<string>)
    requires segs != [] && q != [] && q[0] == segs[0] && q != segs
    ensures ValueAt(InsertAt(n, segs, v), q) == ValueAt(n, q)
    decreases |segs|, 0
  {
    var (m, i) := UpsertChild(n, segs[0]);
    var c := InsertAt(m.children[i].1, segs[1..], v);
    var r := InsertAt(n, segs, v);
    assert r.children == m.children[i := (segs[0], c)];
    KeyIndexAfterReplace(m.children, i, segs[0], c, q[0]);
    UpsertIndex(n, segs[0]);
    assert q == [q[0]] + q[1..] && segs == [segs[0]] + segs[1..];
    InsertKeepsOthers(m.children[i].1, segs[1..], v, q[1..]);
    ValueAtStep(r, q);
    ValueAtStep(n, q);
    if KeyIndex(n.children, segs[0]).None? {
      LeafHasNoValues<V>(segs[0], q[1..]);
    }
  }

  /** Inserting at the same path twice leaves the trie the second insert alone would build. */
  lemma {:induction false} InsertOverwrites<V>(n: Node<V>, segs: seq<string>, v1: Option<V>, v2: Option<V>)
    ensures InsertAt(InsertAt(n, segs, v1), segs, v2) == InsertAt(n, segs, v2)
    decreases |segs|
  {
    if segs != [] {
      var (m, i) := UpsertChild(n, segs[0]);
      var c1 := InsertAt(m.children[i].1, segs[1..], v1);
      var r1 := m.(children := m.children[i := (segs[0], c1)]);
      assert r1 == InsertAt(n, segs, v1);
      KeyIndexAfterReplace(m.children, i, segs[0], c1, segs[0]);
      UpsertIndex(n, segs[0]);
      assert UpsertChild(r1, segs[0]) == (r1, i);
      InsertOverwrites(m.children[i].1, segs[1..], v1, v2);
      assert r1.children[i := (segs[0], InsertAt(c1, segs[1..], v2))]
          == m.children[i := (segs[0], InsertAt(m.children[i].1, segs[1..], v2))];
    }
  }

  /** How a lookup may accept a value: `accept=None`, or a predicate. */
  datatype Accept<!V> = AnyValue | Only(pred: V -> bool)

  /** A node value replaces the current result when it is present and accepted. */
  predicate Accepted<V>(accept: Accept<V>, value: Option<V>)
  {
    value.Some? && (accept.AnyValue? || accept.pred(value.value))
  }

  /**
   * The nodes `find` visits for `segs`: at each segment the first child whose
   * pattern matches it, stopping at the first segment no child matches.
   */
  function Walk<V>(root: Node<V>, segs: seq<string>): (w: seq<Node<V>>)
    ensures |w| <= |segs|
  {
    if segs == [] then []
    else
      var w0 := Walk(root, segs[..|segs| - 1]);
      if |w0| < |segs| - 1 then w0
      else
        var cur := if w0 == [] then root else w0[|w0| - 1];
        match GetChild(cur, segs[|segs| - 1], true)
        case None => w0
        case Some(c) => w0 + [c]
  }

  /** The last accepted value along `w`, starting from `seed`. */
  function LastAccepted<V>(w: seq<Node<V>>, accept: Accept<V>, seed: Option<V>): Option<V>
  {
    if w == [] then seed
    else if Accepted(accept, w[|w| - 1].value) then w[|w| - 1].value
    else LastAccepted(w[..|w| - 1], accept, seed)
  }

  /** What `Loggers.find` returns: the root's value, replaced by each accepted value on the walk. */
  function Resolve<V>(root: Node<V>, segs: seq<string>, accept: Accept<V>): Option<V>
  {
    LastAccepted(Walk(root, segs), accept, root.value)
  }

  /**
   * The result is the value of the deepest accepted node on the walk; when no node on
   * the walk is accepted it is the root's own value, whether or not `accept` holds of it.
   */
  lemma {:induction false} LastAcceptedSeed<V>(w: seq<Node<V>>, accept: Accept<V>, seed: Option<V>)
    requires forall i :: 0 <= i < |w| ==> !Accepted(accept, w[i].value)
    ensures LastAccepted(w, accept, seed) == seed
  {
    if w != [] {
      LastAcceptedSeed(w[..|w| - 1], accept, seed);
    }
  }

  lemma {:induction false} LastAcceptedDeepest<V>(w: seq<Node<V>>, accept: Accept<V>, seed: Option<V>, i: nat)
    requires i < |w| && Accepted(accept, w[i].value)
    requires forall j :: i < j < |w| ==> !Accepted(accept, w[j].value)
    ensures LastAccepted(w, accept, seed) == w[i].value
  {
    if i < |w| - 1 {
      LastAcceptedDeepest(w[..|w| - 1], accept, seed, i);
    }
  }

  /**
   * `find` starts from the root's value without consulting `accept`: when no node on
   * the walk is accepted, the root's value is returned even if `accept` rejects it.
   */
  lemma {:induction false} ResolveRootSeed<V>(root: Node<V>, segs: seq<string>, accept: Accept<V>)
    requires forall i :: 0 <= i < |Walk(root, segs)| ==> !Accepted(accept, Walk(root, segs)[i].value)
    ensures Resolve(root, segs, accept) == root.value
  {
    LastAcceptedSeed(Walk(root, segs), accept, root.value);
  }

  /**
   * `find` returns the value of the deepest node on the walk whose value is present
   * and accepted: rejected and absent values never replace the current result.
   */
  lemma {:induction false} ResolveDeepestAccepted<V>(root: Node<V>, segs: seq<string>, accept: Accept<V>, i: nat)
    requires i < |Walk(root, segs)| && Accepted(accept, Walk(root, segs)[i].value)
    requires forall j :: i < j < |Walk(root, segs)| ==> !Accepted(accept, Walk(root, segs)[j].value)
    ensures Resolve(root, segs, accept) == Walk(root, segs)[i].value
  {
    LastAcceptedDeepest(Walk(root, segs), accept, root.value, i);
  }

  /** Once the walk has stopped short, further segments do not extend it. */
  lemma {:induction false} WalkStopped<V>(root: Node<V>, segs: seq<string>, more: seq<string>)
    requires |Walk(root, segs)| < |segs|
    ensures Walk(root, segs + more) == Walk(root, segs)
    decreases |more|
  {
    if more != [] {
      WalkStopped(root, segs, more[..|more| - 1]);
      assert (segs + more)[..|segs + more| - 1] == segs + more[..|more| - 1];
    } else {
      assert segs + more == segs;
    }
  }

  /** The node the walk stands on after `k` steps. */
  function WalkPosition<V>(root: Node<V>, w: seq<Node<V>>, k: nat): Node<V>
    requires k <= |w|
  {
    if k == 0 then root else w[k - 1]
  }

  /** Each node on the walk is the first child of its predecessor whose pattern matches that segment. */
  lemma {:induction false} WalkStep<V>(root: Node<V>, segs: seq<string>, i: nat)
    requires i < |Walk(root, segs)|
    ensures GetChild(WalkPosition(root, Walk(root, segs), i), segs[i], true) == Some(Walk(root, segs)[i])
  {
    var init := segs[..|segs| - 1];
    var w0 := Walk(root, init);
    var w := Walk(root, segs);
    if i < |w0| {
      WalkStep(root, init, i);
      assert w[..|w0|] == w0;
      assert segs[i] == init[i];
    } else {
      assert |w0| == |init| && i == |w0|;
    }
  }

  /** The walk stops short only at a segment that no child of the last node matches. */
  lemma {:induction false} WalkStop<V>(root: Node<V>, segs: seq<string>)
    requires |Walk(root, segs)| < |segs|
    ensures GetChild(WalkPosition(root, Walk(root, segs), |Walk(root, segs)|), segs[|Walk(root, segs)|], true).None?
  {
    var init := segs[..|segs| - 1];
    var w0 := Walk(root, init);
    if |w0| < |init| {
      WalkStop(root, init);
      assert segs[|w0|] == init[|w0|];
    }
  }

  /** One more segment extends a walk that has not stopped by the first matching child, if any. */
  lemma {:induction false} WalkExtend<V>(root: Node<V>, segs: seq<string>, part: string)
    requires |Walk(root, segs)| == |segs|
    ensures Walk(root, segs + [part]) ==
      match GetChild(WalkPosition(root, Walk(root, segs), |segs|), part, true)
      case None => Walk(root, segs)
      case Some(c) => Walk(root, segs) + [c]
  {
    assert (segs + [part])[..|segs|] == segs;
  }

  lemma {:induction false} NonBlankStep(parts: seq<string>, i: nat)
    requires i < |parts|
    ensures NonBlank(parts[..i + 1]) == NonBlank(parts[..i]) + (if IsBlank(parts[i]) then [] else [parts[i]])
  {
    assert parts[..i + 1][..i] == parts[..i];
  }

  lemma {:induction false} NonBlankRest(parts: seq<string>, i: nat)
    requires i <= |parts|
    ensures NonBlank(parts) == NonBlank(parts[..i]) + NonBlank(parts[i..])
  {
    var a, b := parts[..i], parts[i..];
    assert a + b == parts;
    NonBlankAppend(a, b);
  }

  /** The trie built by inserting v1 at x, exact and then v2 at x, star. */
  lemma {:induction false} TieBreakTrie<V>(v1: V, v2: V)
    ensures InsertAt(InsertAt(Leaf<V>("/"), ["x", "exact"], Some(v1)), ["x", "*"], Some(v2))
      == Node("/", [("x", Node("x", [("exact", Node("exact", [], Some(v1))), ("*", Node("*", [], Some(v2)))], None))], None)
  {
    var e: Node<V> := Node("exact", [], Some(v1));
    var x1: Node<V> := Node("x", [("exact", e)], None);
    var t1 := InsertAt(Leaf<V>("/"), ["x", "exact"], Some(v1));
    assert t1 == Node("/", [("x", x1)], None) by {
      assert ["x", "exact"][1..] == ["exact"] && ["exact"][1..] == [];
      var lx: Node<V> := Leaf("x");
      assert lx.children + [("exact", Leaf<V>("exact"))] == [("exact", Leaf("exact"))];
      assert UpsertChild(lx, "exact") == (Node("x", [("exact", Leaf("exact"))], None), 0);
      assert InsertAt(lx, ["exact"], Some(v1)) == x1;
      var lr: Node<V> := Leaf("/");
      assert lr.children + [("x", lx)] == [("x", lx)];
      assert UpsertChild(lr, "x") == (Node("/", [("x", lx)], None), 0);
    }
    var s: Node<V> := Node("*", [], Some(v2));
    assert ["x", "*"][1..] == ["*"] && ["*"][1..] == [];
    assert x1.children + [("*", Leaf<V>("*"))] == [("exact", e), ("*", Leaf("*"))];
    assert UpsertChild(x1, "*") == (Node("x", [("exact", e), ("*", Leaf("*"))], None), 1);
    assert InsertAt(x1, ["*"], Some(v2)) == Node("x", [("exact", e), ("*", s)], None);
    assert KeyIndex(t1.children, "x") == Some(0);
  }

  /** A two-segment walk through children that match. */
  lemma {:induction false} WalkTwo<V>(root: Node<V>, p: string, q: string, c1: Node<V>, c2: Node<V>)
    requires GetChild(root, p, true) == Some(c1) && GetChild(c1, q, true) == Some(c2)
    ensures Walk(root, [p, q]) == [c1, c2]
  {
    assert [p, q][..1] == [p] && [p][..0] == [];
  }

  /** Under children exact then star, the literal name takes the first and any other name the second. */
  lemma {:induction false} TieBreakChildren<V>(x: Node<V>, e: Node<V>, s: Node<V>, other: string)
    requires x.children == [("exact", e), ("*", s)]
    requires other != "exact"
    ensures GetChild(x, "exact", true) == Some(e)
    ensures GetChild(x, other, true) == Some(s)
  {
    Glob.LiteralMatch("exact", "exact");
    Glob.LiteralMatch("exact", other);
    Glob.StarMatchesAll(other);
    assert x.children[1..] == [("*", s)];
    assert FirstMatch(x.children, other) == Some(1);
  }

  /** Under a node whose children are exact then star, a fuzzy walk takes the first that matches. */
  lemma {:induction false} TieBreakWalk<V>(x: Node<V>, e: Node<V>, s: Node<V>, other: string)
    requires x.children == [("exact", e), ("*", s)]
    requires other != "exact"
    ensures Walk(Node("/", [("x", x)], None), ["x", "exact"]) == [x, e]
    ensures Walk(Node("/", [("x", x)], None), ["x", other]) == [x, s]
  {
    var root: Node<V> := Node("/", [("x", x)], None);
    Glob.LiteralMatch("x", "x");
    assert GetChild(root, "x", true) == Some(x);
    TieBreakChildren(x, e, s, other);
    WalkTwo(root, "x", "exact", x, e);
    WalkTwo(root, "x", other, x, s);
  }

  /**
   * Insertion order breaks ties between patterns: with the path x, exact registered
   * before the path x, star, resolving x, exact reaches the literal child and returns
   * its value, while any other name under x falls through to the wildcard.
   */
  lemma {:induction false} InsertionOrderTieBreak<V>(v1: V, v2: V, other: string)
    requires other != "exact"
    ensures Resolve(InsertAt(InsertAt(Leaf<V>("/"), ["x", "exact"], Some(v1)), ["x", "*"], Some(v2)), ["x", "exact"], AnyValue) == Some(v1)
    ensures Resolve(InsertAt(InsertAt(Leaf<V>("/"), ["x", "exact"], Some(v1)), ["x", "*"], Some(v2)), ["x", other], AnyValue) == Some(v2)
  {
    TieBreakTrie(v1, v2);
    var e: Node<V> := Node("exact", [], Some(v1));
    var s: Node<V> := Node("*", [], Some(v2));
    TieBreakWalk(Node("x", [("exact", e), ("*", s)], None), e, s, other);
  }

  /**
   * The state of `find` after the first `i` pieces of the path: the non-blank ones so far,
   * the nodes walked, the node reached and the value kept.
   */
  ghost predicate FindState<V>(root: Node<V>, accept: Accept<V>, parts: seq<string>, i: nat,
                         segs: seq<string>, w: seq<Node<V>>, node: Node<V>, current: Option<V>)
  {
    && i <= |parts|
    && segs == NonBlank(parts[..i])
    && w == Walk(root, segs) && |w| == |segs|
    && node == WalkPosition(root, w, |w|)
    && current == LastAccepted(w, accept, root.value)
  }

  /** A blank piece is skipped. */
  lemma {:induction false} FindSkip<V>(root: Node<V>, accept: Accept<V>, parts: seq<string>, i: nat,
                                      segs: seq<string>, w: seq<Node<V>>, node: Node<V>, current: Option<V>)
    requires i < |parts| && IsBlank(parts[i])
    requires FindState(root, accept, parts, i, segs, w, node, current)
    ensures FindState(root, accept, parts, i + 1, segs, w, node, current)
  {
    NonBlankStep(parts, i);
  }

  /** Where no child matches a non-blank segment, `find` stops with the value found so far. */
  lemma {:induction false} FindStop<V>(root: Node<V>, accept: Accept<V>, parts: seq<string>, i: nat,
                                      segs: seq<string>, w: seq<Node<V>>, node: Node<V>, current: Option<V>)
    requires i < |parts| && !IsBlank(parts[i])
    requires FindState(root, accept, parts, i, segs, w, node, current)
    requires GetChild(node, parts[i], true).None?
    ensures Resolve(root, NonBlank(parts), accept) == current
  {
    var part := parts[i];
    NonBlankStep(parts, i);
    assert NonBlank(parts[..i + 1]) == segs + [part];
    WalkExtend(root, segs, part);
    assert Walk(root, segs + [part]) == Walk(root, segs);
    NonBlankRest(parts, i + 1);
    WalkStopped(root, segs + [part], NonBlank(parts[i + 1..]));
  }

  /** Where a child matches a non-blank segment, the walk descends to it and `find` may take its value. */
  lemma {:induction false} FindDescend<V>(root: Node<V>, accept: Accept<V>, parts: seq<string>, i: nat,
                                         segs: seq<string>, w: seq<Node<V>>, node: Node<V>, current: Option<V>)
    requires i < |parts| && !IsBlank(parts[i])
    requires FindState(root, accept, parts, i, segs, w, node, current)
    requires GetChild(node, parts[i], true).Some?
    ensures var c := GetChild(node, parts[i], true).value;
      FindState(root, accept, parts, i + 1, segs + [parts[i]], w + [c], c,
        if Accepted(accept, c.value) then c.value else current)
  {
    var part, c := parts[i], GetChild(node, parts[i], true).value;
    NonBlankStep(parts, i);
    WalkExtend(root, segs, part);
    var w' := w + [c];
    assert w'[..|w'| - 1] == w;
  }

  /** After the last piece, the state holds what `find` returns. */
  lemma {:induction false} FindEnd<V>(root: Node<V>, accept: Accept<V>, parts: seq<string>,
                                     segs: seq<string>, w: seq<Node<V>>, node: Node<V>, current: Option<V>)
    requires FindState(root, accept, parts, |parts|, segs, w, node, current)
    ensures Resolve(root, NonBlank(parts), accept) == current
  {
    assert parts[..|parts|] == parts;
  }

  /** `Loggers`: the trie, built by `insert` and read by `find`. */
  class Loggers<V> {
    var root: Node<V>

    /** `Loggers(root)`: the given root node, or a fresh valueless node named "/". */
    constructor(root: Option<Node<V>>)
      ensures this.root == if root.Some? then root.value else Leaf("/")
    {
      this.root := if root.Some? then root.value else Leaf("/");
    }

    /** `insert(name, value)`: upsert the nodes along the non-blank segments and set the last one's value. */
    method Insert(name: string, value: Option<V>)
      modifies this
      ensures root == InsertAt(old(root), Segments(name), value)
    {
      root := InsertAt(root, Segments(name), value);
    }

    /**
     * `find(name, accept)`: walk the non-blank segments of `name` through the first
     * matching child at each step, remembering the last accepted value.
     */
    method Find(name: string, accept: Accept<V>) returns (current: Option<V>)
      ensures current == Resolve(root, Segments(name), accept)
    {
      var node := root;
      current := root.value;
      var parts := Split(name, '/');
      ghost var segs: seq<string> := [];
      ghost var w: seq<Node<V>> := [];
      var i := 0;
      while i < |parts|
        invariant FindState(root, accept, parts, i, segs, w, node, current)
      {
        if IsBlank(parts[i]) {
          FindSkip(root, accept, parts, i, segs, w, node, current);
        } else {
          var next := GetChild(node, parts[i], true);
          if next.None? {
            FindStop(root, accept, parts, i, segs, w, node, current);
            return;
          }
          FindDescend(root, accept, parts, i, segs, w, node, current);
          segs, w, node := segs + [parts[i]], w + [next.value], next.value;
          if Accepted(accept, node.value) {
            current := node.value;
          }
        }
        i := i + 1;
      }
      FindEnd(root, accept, parts, segs, w, node, current);
    }
  }
}
