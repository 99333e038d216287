/** The nested-path updater of the Helm values files: `set_nested`, `sibling_path` and the pass that applies
    every spec of one file. */
module HelmValues {
  import opened Text
  import opened Words
  import Rewriters
  import RewriterPatterns

  /** A loaded YAML document.  `Leaf` is everything that is no mapping: scalars, lists, nothing at all. */
  datatype Node = Leaf(text: string) | Map(children: map<string, Node>)

  type Path = seq<string>

  /** `set_nested` on the keys of a path.  `None` is the exception: no key at all, or a step into a node that is
      no mapping. */
  function Set(node: Node, keys: Path, value: string): Option<Node>
    decreases |keys|
  {
    if keys == [] || !node.Map? then None
    else
      var m, k := node.children, keys[0];
      if |keys| == 1 then Some(Map(m[k := Leaf(value)]))
      else match Set(if k in m then m[k] else Map(map[]), keys[1..], value)
           case None => None
           case Some(child) => Some(Map(m[k := child]))
  }

  function Get(node: Node, path: Path): Option<Node>
    decreases |path|
  {
    if path == [] then Some(node)
    else if node.Map? && path[0] in node.children then Get(node.children[path[0]], path[1..]) else None
  }

  /** Neither path leads through the other. */
  predicate Apart(p: Path, q: Path) { !(p <= q) && !(q <= p) }

  lemma ApartTails(p: Path, q: Path)
    requires p != [] && q != []
    ensures Apart(p, q) <==> p[0] != q[0] || Apart(p[1..], q[1..])
  {
    assert p == [p[0]] + p[1..] && q == [q[0]] + q[1..];
    assert p <= q <==> p[0] == q[0] && p[1..] <= q[1..];
    assert q <= p <==> p[0] == q[0] && q[1..] <= p[1..];
  }

  function ChildOf(node: Node, k: string): Node
    requires node.Map?
  {
    if k in node.children then node.children[k] else Map(map[])
  }

  /** What was written is read back, and a path apart from the written one reads what it read before. */
  lemma {:induction false} SetGet(node: Node, keys: Path, value: string, q: Path)
    requires Set(node, keys, value).Some?
    ensures Get(Set(node, keys, value).value, keys) == Some(Leaf(value))
    ensures Apart(keys, q) ==> Get(Set(node, keys, value).value, q) == Get(node, q)
    decreases |keys|
  {
    var m, k := node.children, keys[0];
    if q != [] { ApartTails(keys, q); }
    if |keys| > 1 {
      var child := ChildOf(node, k);
      SetGet(child, keys[1..], value, if q == [] then [] else q[1..]);
      if Apart(keys, q) && q[0] == k && k !in m {
        assert Get(Map(map[]), q[1..]) == None;
      }
    }
  }

  /** It works exactly when there is a key and every node passed on the way is a mapping or missing. */
  lemma {:induction false} SetWorksExactly(node: Node, keys: Path, value: string)
    ensures Set(node, keys, value).Some?
       <==> keys != [] && forall i: nat | i < |keys| :: Get(node, keys[..i]).None? || Get(node, keys[..i]).value.Map?
    decreases |keys|
  {
    if keys != [] {
      assert Get(node, keys[..0]) == Some(node);
      if node.Map? && |keys| > 1 {
        var child := ChildOf(node, keys[0]);
        var rest := keys[1..];
        SetWorksExactly(child, rest, value);
        forall i: nat | i < |rest|
          ensures (Get(node, keys[..i + 1]).None? || Get(node, keys[..i + 1]).value.Map?)
             <==> (Get(child, rest[..i]).None? || Get(child, rest[..i]).value.Map?)
        {
          assert keys[..i + 1][1..] == rest[..i];
          if keys[0] !in node.children && i > 0 { assert Get(Map(map[]), rest[..i]) == None; }
        }
        forall i: nat | 0 < i < |keys|
          ensures (Get(node, keys[..i]).None? || Get(node, keys[..i]).value.Map?)
             <==> (Get(child, rest[..i - 1]).None? || Get(child, rest[..i - 1]).value.Map?)
        {
          assert i - 1 < |rest| && keys[..(i - 1) + 1] == keys[..i];
        }
      }
    }
  }

  function Then(o: Option<Node>, keys: Path, value: string): Option<Node> {
    match o case None => None case Some(node) => Set(node, keys, value)
  }

  /** Writes to paths that lie apart commute, failures included. */
  lemma {:induction false} SetsCommute(node: Node, p: Path, v: string, q: Path, w: string)
    requires Apart(p, q)
    ensures Then(Set(node, p, v), q, w) == Then(Set(node, q, w), p, v)
    decreases |p|
  {
    if node.Map? {
      ApartTails(p, q);
      var m := node.children;
      if p[0] == q[0] {
        SetsCommute(ChildOf(node, p[0]), p[1..], v, q[1..], w);
        SameHead(node, p, v, q, w);
        SameHead(node, q, w, p, v);
      } else {
        OtherHead(node, p, v, q, w);
        OtherHead(node, q, w, p, v);
        var a, b := Written(node, p, v), Written(node, q, w);
        if a.Some? && b.Some? {
          assert m[p[0] := a.value][q[0] := b.value] == m[q[0] := b.value][p[0] := a.value];
        }
      }
    }
  }

  function Wrap(node: Node, k: string, o: Option<Node>): Option<Node>
    requires node.Map?
  {
    match o case None => None case Some(child) => Some(Map(node.children[k := child]))
  }

  lemma SetIsWrap(node: Node, p: Path, v: string)
    requires node.Map? && |p| > 1
    ensures Set(node, p, v) == Wrap(node, p[0], Set(ChildOf(node, p[0]), p[1..], v))
  {
  }

  lemma SameHead(node: Node, p: Path, v: string, q: Path, w: string)
    requires node.Map? && |p| > 1 && |q| > 1 && p[0] == q[0]
    ensures Then(Set(node, p, v), q, w) == Wrap(node, p[0], Then(Set(ChildOf(node, p[0]), p[1..], v), q[1..], w))
  {
    hide Set;
    SetIsWrap(node, p, v);
    var inner := Set(ChildOf(node, p[0]), p[1..], v);
    if inner.Some? {
      var next := Map(node.children[p[0] := inner.value]);
      SetIsWrap(next, q, w);
      assert ChildOf(next, q[0]) == inner.value;
      var outer := Set(inner.value, q[1..], w);
      if outer.Some? {
        assert next.children[p[0] := outer.value] == node.children[p[0] := outer.value];
      }
    }
  }

  /** The child a write puts under its first key. */
  function Written(node: Node, p: Path, v: string): Option<Node>
    requires node.Map? && p != []
  {
    if |p| == 1 then Some(Leaf(v)) else Set(ChildOf(node, p[0]), p[1..], v)
  }

  lemma OtherHead(node: Node, p: Path, v: string, q: Path, w: string)
    requires node.Map? && p != [] && q != [] && p[0] != q[0]
    ensures Then(Set(node, p, v), q, w)
         == match (Written(node, p, v), Written(node, q, w))
            case (Some(a), Some(b)) => Some(Map(node.children[p[0] := a][q[0] := b]))
            case _ => None
  {
    var a := Written(node, p, v);
    assert Set(node, p, v) == Wrap(node, p[0], a);
    if a.Some? {
      var next := Map(node.children[p[0] := a.value]);
      assert ChildOf(next, q[0]) == ChildOf(node, q[0]);
      assert Written(next, q, w) == Written(node, q, w);
      assert Set(next, q, w) == Wrap(next, q[0], Written(next, q, w));
    }
  }

  // ---------------------------------------------------------------------------------------------
  // All the writes of one file.
  // ---------------------------------------------------------------------------------------------

  datatype Write = Write(keys: Path, value: string)

  function SetAll(o: Option<Node>, writes: seq<Write>): Option<Node>
    decreases |writes|
  {
    if writes == [] then o else SetAll(Then(o, writes[0].keys, writes[0].value), writes[1..])
  }

  /** No written path leads through another. */
  ghost predicate AllApart(writes: seq<Write>) {
    forall i: nat, j: nat | i < |writes| && j < |writes| && i != j :: Apart(writes[i].keys, writes[j].keys)
  }

  lemma {:induction false} NoneStays(writes: seq<Write>)
    ensures SetAll(None, writes) == None
    decreases |writes|
  {
    if writes != [] { NoneStays(writes[1..]); }
  }

  lemma {:induction false} SetAllConcat(o: Option<Node>, a: seq<Write>, b: seq<Write>)
    ensures SetAll(o, a + b) == SetAll(SetAll(o, a), b)
    decreases |a|
  {
    if a == [] {
      assert a + b == b;
    } else {
      assert (a + b)[1..] == a[1..] + b;
      SetAllConcat(Then(o, a[0].keys, a[0].value), a[1..], b);
    }
  }

  /** A path apart from every written path reads what it read before; and every written value is read back. */
  lemma {:induction false} SetAllGet(node: Node, writes: seq<Write>, q: Path)
    requires SetAll(Some(node), writes).Some? && forall i: nat | i < |writes| :: Apart(writes[i].keys, q)
    ensures Get(SetAll(Some(node), writes).value, q) == Get(node, q)
    decreases |writes|
  {
    if writes != [] {
      var next := Set(node, writes[0].keys, writes[0].value);
      if next.None? { NoneStays(writes[1..]); }
      SetGet(node, writes[0].keys, writes[0].value, q);
      SetAllGet(next.value, writes[1..], q);
    }
  }

  lemma {:induction false} WrittenIsReadBack(node: Node, writes: seq<Write>, i: nat)
    requires SetAll(Some(node), writes).Some? && AllApart(writes) && i < |writes|
    ensures Get(SetAll(Some(node), writes).value, writes[i].keys) == Some(Leaf(writes[i].value))
    decreases |writes|
  {
    var next := Set(node, writes[0].keys, writes[0].value);
    if next.None? { NoneStays(writes[1..]); }
    if i == 0 {
      SetGet(node, writes[0].keys, writes[0].value, []);
      SetAllGet(next.value, writes[1..], writes[0].keys);
    } else {
      WrittenIsReadBack(next.value, writes[1..], i - 1);
    }
  }

  /** A write can be brought to the front. */
  lemma {:induction false} WriteFirst(o: Option<Node>, before: seq<Write>, w: Write)
    requires forall i: nat | i < |before| :: Apart(before[i].keys, w.keys)
    ensures Then(SetAll(o, before), w.keys, w.value) == SetAll(Then(o, w.keys, w.value), before)
    decreases |before|
  {
    if before != [] {
      var first := before[0];
      WriteFirst(Then(o, first.keys, first.value), before[1..], w);
      if o.Some? { SetsCommute(o.value, first.keys, first.value, w.keys, w.value); }
    }
  }

  /** The order of the writes does not matter. */
  lemma {:induction false} OrderIrrelevant(o: Option<Node>, writes: seq<Write>, other: seq<Write>)
    requires AllApart(writes) && Permuted(writes, other)
    ensures SetAll(o, writes) == SetAll(o, other)
    decreases |writes|
  {
    if writes == [] {
      SameSize(writes, other);
    } else {
      var w, rest := writes[0], writes[1..];
      var i := Matching(writes, other);
      var a, b := other[..i], other[i + 1..];
      assert other == a + [w] + b;
      assert AllApart(rest);
      OrderIrrelevant(Then(o, w.keys, w.value), rest, a + b);
      OthersApart(writes, a, w, b);
      WriteFirst(o, a, w);
      SetAllConcat(o, a + [w], b);
      SetAllConcat(o, a, [w]);
      SetAllConcat(Then(o, w.keys, w.value), a, b);
    }
  }

  ghost predicate Permuted<T>(a: seq<T>, b: seq<T>) { multiset(a) == multiset(b) }

  lemma Matching<T>(a: seq<T>, b: seq<T>) returns (i: nat)
    requires a != [] && Permuted(a, b)
    ensures i < |b| && b[i] == a[0] && Permuted(a[1..], b[..i] + b[i + 1..])
  {
    assert a[0] in multiset(a) && a[0] in multiset(b);
    i :| i < |b| && b[i] == a[0];
    RemoveOne(a, b, i);
  }

  lemma RemoveOne<T>(writes: seq<T>, other: seq<T>, i: nat)
    requires writes != [] && Permuted(writes, other) && i < |other| && other[i] == writes[0]
    ensures Permuted(writes[1..], other[..i] + other[i + 1..])
  {
    TakenOut(writes, 0);
    TakenOut(other, i);
    hide Permuted;
    assert writes[..0] + writes[1..] == writes[1..];
    SameRest(writes[1..], other[..i] + other[i + 1..], writes[0]);
  }

  lemma TakenOut<T>(s: seq<T>, i: nat)
    requires i < |s|
    ensures multiset(s) == multiset(s[..i] + s[i + 1..]) + multiset{s[i]}
  {
    assert s == s[..i] + [s[i]] + s[i + 1..];
  }

  lemma SameRest<T>(a: seq<T>, b: seq<T>, x: T)
    requires multiset(a) + multiset{x} == multiset(b) + multiset{x}
    ensures Permuted(a, b)
  {
    assert multiset(a) == multiset(a) + multiset{x} - multiset{x};
    assert multiset(b) == multiset(b) + multiset{x} - multiset{x};
  }

  lemma SameSize<T>(a: seq<T>, b: seq<T>)
    requires Permuted(a, b)
    ensures |a| == |b|
  {
    assert |multiset(a)| == |a| && |multiset(b)| == |b|;
  }

  lemma OthersApart(writes: seq<Write>, a: seq<Write>, w: Write, b: seq<Write>)
    requires AllApart(writes) && writes != [] && writes[0] == w && Permuted(writes[1..], a + b)
    ensures forall i: nat | i < |a| :: Apart(a[i].keys, w.keys)
  {
    forall i: nat | i < |a| ensures Apart(a[i].keys, w.keys) {
      assert (a + b)[i] == a[i] && a[i] in multiset(a + b);
      assert a[i] in writes[1..];
      var j: nat :| j < |writes[1..]| && writes[1..][j] == a[i];
      assert writes[j + 1] == a[i];
    }
  }

  // ---------------------------------------------------------------------------------------------
  // Specs.
  // ---------------------------------------------------------------------------------------------

  /** The keys `set_nested` takes from a path such as `.image.tag`. */
  function Keys(dotPath: string): Path { NonEmpty(Split('.', dotPath)) }

  function SiblingPath(dotPath: string, leaf: string): string {
    var p := Split('.', dotPath);
    Join('.', p[..|p| - 1] + [leaf])
  }

  datatype Spec = Spec(repository: string, tagPath: string, version: string, raw: bool)

  /** What one spec writes; a spec without a path writes nothing. */
  function WritesOf(s: Spec): seq<Write> {
    if s.tagPath == "" then []
    else [Write(Keys(s.tagPath), s.version), Write(Keys(SiblingPath(s.tagPath, "repository")), s.repository)]
  }

  function AllWrites(specs: seq<Spec>): seq<Write> {
    if specs == [] then [] else AllWrites(specs[..|specs| - 1]) + WritesOf(specs[|specs| - 1])
  }

  lemma TwoWrites(o: Option<Node>, w: seq<Write>)
    requires |w| == 2
    ensures SetAll(o, w) == Then(Then(o, w[0].keys, w[0].value), w[1].keys, w[1].value)
  {
    assert w[1..][1..] == [] && w[1..][0] == w[1];
    assert SetAll(o, w) == SetAll(Then(o, w[0].keys, w[0].value), w[1..]);
  }

  // ---------------------------------------------------------------------------------------------
  // The sibling of a path.
  // ---------------------------------------------------------------------------------------------

  /** The sibling stands beside the tag exactly when the path does not end with a dot: then it is the tag's
      path with the last key exchanged, otherwise it would lie below the tag. */
  lemma SiblingStandsBesideExactly(dotPath: string, leaf: string)
    requires dotPath != "" && leaf != "" && '.' !in leaf
    ensures dotPath[|dotPath| - 1] != '.' ==>
      Keys(dotPath) != [] && Keys(SiblingPath(dotPath, leaf)) == Keys(dotPath)[..|Keys(dotPath)| - 1] + [leaf]
    ensures dotPath[|dotPath| - 1] == '.' ==> Keys(SiblingPath(dotPath, leaf)) == Keys(dotPath) + [leaf]
  {
    hide *;
    var front, last := SiblingKeys(dotPath, leaf);
    LastKeys(front, last, leaf);
  }

  lemma SiblingKeys(dotPath: string, leaf: string) returns (front: seq<string>, last: string)
    requires dotPath != "" && '.' !in leaf
    ensures Keys(dotPath) == NonEmpty(front + [last]) && Keys(SiblingPath(dotPath, leaf)) == NonEmpty(front + [leaf])
    ensures last == "" <==> dotPath[|dotPath| - 1] == '.'
  {
    var p := Split('.', dotPath);
    var n := |p| - 1;
    front, last := p[..n], p[n];
    assert p == front + [last];
    SplitHasNone('.', dotPath);
    SplitJoin('.', front + [leaf]);
    LastOfSplit('.', dotPath);
  }

  lemma LastKeys(front: seq<string>, last: string, leaf: string)
    requires leaf != ""
    ensures NonEmpty(front + [leaf]) == NonEmpty(front) + [leaf]
    ensures var k := NonEmpty(front + [last]);
      if last == "" then NonEmpty(front + [leaf]) == k + [leaf]
      else k != [] && NonEmpty(front + [leaf]) == k[..|k| - 1] + [leaf]
  {
    LastKey(front, leaf);
    LastKey(front, last);
  }

  lemma LastKey(p: seq<string>, s: string)
    ensures NonEmpty(p + [s]) == NonEmpty(p) + if s == "" then [] else [s]
    ensures s != "" ==> NonEmpty(p + [s])[..|NonEmpty(p + [s])| - 1] == NonEmpty(p)
    ensures s == "" ==> NonEmpty(p + [s]) == NonEmpty(p)
  {
    NonEmptyConcat(p, [s]);
    One(s);
    hide NonEmpty;
    assert NonEmpty(p) + [] == NonEmpty(p);
  }

  lemma One(s: string)
    ensures NonEmpty([s]) == if s == "" then [] else [s]
  {
    assert NonEmpty([s]) == (if s == "" then [] else [s]) + NonEmpty([]);
  }

  // ---------------------------------------------------------------------------------------------
  // What the pass leaves in the file.
  // ---------------------------------------------------------------------------------------------

  lemma {:induction false} WritesOfSpec(specs: seq<Spec>, i: nat) returns (k: nat)
    requires i < |specs| && specs[i].tagPath != ""
    ensures k + 1 < |AllWrites(specs)| && AllWrites(specs)[k..k + 2] == WritesOf(specs[i])
  {
    hide AllWrites;
    var a, b := specs[..i], specs[i + 1..];
    assert specs == a + [specs[i]] + b;
    AllWritesConcat(a + [specs[i]], b);
    AllWritesConcat(a, [specs[i]]);
    OneSpec(specs[i]);
    k := |AllWrites(a)|;
  }

  /** Every spec's version and repository are read back as given, whatever the other specs of the file. */
  lemma {:induction false} SpecsAreReadBack(doc: Node, specs: seq<Spec>, i: nat)
    requires SetAll(Some(doc), AllWrites(specs)).Some? && AllApart(AllWrites(specs))
    requires i < |specs| && specs[i].tagPath != ""
    ensures var result := SetAll(Some(doc), AllWrites(specs)).value; var s := specs[i];
      Get(result, Keys(s.tagPath)) == Some(Leaf(s.version))
      && Get(result, Keys(SiblingPath(s.tagPath, "repository"))) == Some(Leaf(s.repository))
  {
    var k := WritesOfSpec(specs, i);
    var ws := AllWrites(specs);
    assert ws[k] == ws[k..k + 2][0] && ws[k + 1] == ws[k..k + 2][1];
    WrittenIsReadBack(doc, ws, k);
    WrittenIsReadBack(doc, ws, k + 1);
  }

  lemma {:induction false} AllWritesConcat(a: seq<Spec>, b: seq<Spec>)
    ensures AllWrites(a + b) == AllWrites(a) + AllWrites(b)
    decreases |b|
  {
    hide WritesOf;
    if b == [] {
      assert a + b == a;
    } else {
      var n := |b| - 1;
      assert (a + b)[..|a + b| - 1] == a + b[..n] && (a + b)[|a + b| - 1] == b[n];
      AllWritesConcat(a, b[..n]);
      JoinWrites(AllWrites(a), AllWrites(b[..n]), WritesOf(b[n]));
    }
  }

  lemma JoinWrites(a: seq<Write>, b: seq<Write>, c: seq<Write>)
    ensures a + b + c == a + (b + c)
  {
  }

  lemma OneSpec(s: Spec)
    ensures AllWrites([s]) == WritesOf(s)
  {
    assert [s][..0] == [] && AllWrites([]) + WritesOf(s) == WritesOf(s);
  }

  ghost function WriteBag(specs: seq<Spec>): multiset<Write> { multiset(AllWrites(specs)) }

  lemma {:induction false} SameSpecsSameWrites(specs: seq<Spec>, other: seq<Spec>)
    requires Permuted(specs, other)
    ensures WriteBag(specs) == WriteBag(other)
    decreases |specs|
  {
    hide *;
    SameSize(specs, other);
    if specs == [] {
      assert other == [];
    } else {
      var i := Matching(specs, other);
      SameSpecsSameWrites(specs[1..], other[..i] + other[i + 1..]);
      SpecAmong(specs, 0);
      SpecAmong(other, i);
      assert specs[..0] + specs[1..] == specs[1..];
    }
  }

  lemma SpecAmong(specs: seq<Spec>, i: nat)
    requires i < |specs|
    ensures WriteBag(specs) == multiset(WritesOf(specs[i])) + WriteBag(specs[..i] + specs[i + 1..])
  {
    hide AllWrites, WritesOf;
    var a, s, b := specs[..i], specs[i], specs[i + 1..];
    assert specs == a + [s] + b;
    AllWritesConcat(a + [s], b);
    AllWritesConcat(a, [s]);
    AllWritesConcat(a, b);
    OneSpec(s);
  }

  /** The specs of a file may come in any order. */
  lemma {:induction false} SpecOrderIrrelevant(doc: Node, specs: seq<Spec>, other: seq<Spec>)
    requires AllApart(AllWrites(specs)) && Permuted(specs, other)
    ensures SetAll(Some(doc), AllWrites(specs)) == SetAll(Some(doc), AllWrites(other))
  {
    SameSpecsSameWrites(specs, other);
    OrderIrrelevant(Some(doc), AllWrites(specs), AllWrites(other));
  }

  // ---------------------------------------------------------------------------------------------
  // When the pass works.
  // ---------------------------------------------------------------------------------------------

  lemma {:induction false} LevelsAreMappings(node: Node, keys: Path, value: string, i: nat)
    requires Set(node, keys, value).Some? && i < |keys|
    ensures var level := Get(Set(node, keys, value).value, keys[..i]); level.Some? && level.value.Map?
    decreases |keys|
  {
    if i > 0 {
      assert keys[..i][1..] == keys[1..][..i - 1];
      LevelsAreMappings(ChildOf(node, keys[0]), keys[1..], value, i - 1);
    }
  }

  /** A write changes nothing about which paths apart from it can be written. */
  lemma ApartKeepsWorking(node: Node, p: Path, v: string, q: Path, w: string)
    requires Apart(p, q) && Set(node, p, v).Some?
    ensures Set(Set(node, p, v).value, q, w).Some? <==> Set(node, q, w).Some?
  {
    SetsCommute(node, p, v, q, w);
    if Set(node, q, w).Some? {
      var next := Set(node, p, v).value;
      SetWorksExactly(node, q, w);
      SetWorksExactly(next, q, w);
      forall i: nat | i < |q| ensures Get(next, q[..i]).None? || Get(next, q[..i]).value.Map? {
        LevelStays(node, p, v, q, i);
      }
    }
  }

  lemma LevelStays(node: Node, p: Path, v: string, q: Path, i: nat)
    requires Apart(p, q) && Set(node, p, v).Some? && i < |q|
    requires Get(node, q[..i]).None? || Get(node, q[..i]).value.Map?
    ensures var level := Get(Set(node, p, v).value, q[..i]); level.None? || level.value.Map?
  {
    var r := q[..i];
    assert r <= q;
    if r <= p {
      assert r == p[..i] && r != p;
      LevelsAreMappings(node, p, v, i);
    } else {
      SetGet(node, p, v, r);
    }
  }

  /** Writes to paths apart work exactly when each of them works on the file as it was. */
  lemma {:induction false} WritesWorkExactly(node: Node, writes: seq<Write>)
    requires AllApart(writes)
    ensures SetAll(Some(node), writes).Some?
       <==> forall i: nat | i < |writes| :: Set(node, writes[i].keys, writes[i].value).Some?
    decreases |writes|
  {
    if writes != [] {
      var w, rest := writes[0], writes[1..];
      var next := Set(node, w.keys, w.value);
      if next.None? {
        NoneStays(rest);
      } else {
        WritesWorkExactly(next.value, rest);
        forall i: nat | i < |rest|
          ensures Set(next.value, rest[i].keys, rest[i].value).Some? <==> Set(node, rest[i].keys, rest[i].value).Some?
        {
          assert rest[i] == writes[i + 1];
          ApartKeepsWorking(node, w.keys, w.value, rest[i].keys, rest[i].value);
        }
        assert forall i: nat | 0 < i < |writes| :: writes[i] == rest[i - 1];
      }
    }
  }

  lemma {:induction false} SpecWrites(doc: Node, s: Spec)
    requires s.tagPath != ""
    ensures SetAll(Some(doc), WritesOf(s))
         == Then(Set(doc, Keys(s.tagPath), s.version), Keys(SiblingPath(s.tagPath, "repository")), s.repository)
  {
    TwoWrites(Some(doc), WritesOf(s));
    hide Keys, SiblingPath, Set, SetAll;
  }

  /** One spec works exactly when its tag path does not end with a dot and can be written. */
  lemma {:induction false} SpecWorksExactly(doc: Node, s: Spec)
    requires s.tagPath != ""
    ensures SetAll(Some(doc), WritesOf(s)).Some?
       <==> s.tagPath[|s.tagPath| - 1] != '.' && Set(doc, Keys(s.tagPath), s.version).Some?
  {
    SpecWrites(doc, s);
    SiblingStandsBesideExactly(s.tagPath, "repository");
    hide Keys, SiblingPath, Set, SetAll, WritesOf;
    var p, q := Keys(s.tagPath), Keys(SiblingPath(s.tagPath, "repository"));
    assert |q| > 0 && q[..|q| - 1] == if s.tagPath[|s.tagPath| - 1] == '.' then p else p[..|p| - 1];
    assert p != [] || s.tagPath[|s.tagPath| - 1] == '.';
    if Set(doc, p, s.version).Some? {
      NoKeyNoSet(doc, p, s.version);
      SiblingWorksExactly(doc, p, s.version, q, s.repository);
    }
  }

  lemma NoKeyNoSet(doc: Node, p: Path, v: string)
    ensures Set(doc, p, v).Some? ==> |p| > 0
  {
  }

  /** Behind a write, the path with its last key exchanged can be written, and a path below it cannot. */
  lemma SiblingWorksExactly(doc: Node, p: Path, v: string, q: Path, w: string)
    requires Set(doc, p, v).Some? && |p| > 0 && |q| > 0 && (q[..|q| - 1] == p[..|p| - 1] || q[..|q| - 1] == p)
    ensures Set(Set(doc, p, v).value, q, w).Some? <==> q[..|q| - 1] == p[..|p| - 1]
  {
    var next := Set(doc, p, v).value;
    SetWorksExactly(next, q, w);
    SetGet(doc, p, v, []);
    if q[..|q| - 1] == p {
      assert q[..|p|] == p;
    } else {
      forall i: nat | i < |q| ensures Get(next, q[..i]).None? || Get(next, q[..i]).value.Map? {
        assert q[..i] == q[..|q| - 1][..i] == p[..|p| - 1][..i] == p[..i];
        LevelsAreMappings(doc, p, v, i);
      }
    }
  }

  ghost predicate SpecWorks(doc: Option<Node>, s: Spec) {
    doc.Some?
    && (s.tagPath != "" ==> s.tagPath[|s.tagPath| - 1] != '.' && Set(doc.value, Keys(s.tagPath), s.version).Some?)
  }

  /** The pass over a file works exactly when every spec works on what the specs before it left. */
  lemma {:induction false} PassWorksExactly(doc: Node, specs: seq<Spec>)
    ensures SetAll(Some(doc), AllWrites(specs)).Some?
       <==> forall i: nat | i < |specs| :: SpecWorks(SetAll(Some(doc), AllWrites(specs[..i])), specs[i])
    decreases |specs|
  {
    hide Keys, WritesOf, SetAll;
    NothingToWrite(doc);
    if specs != [] {
      var n := |specs| - 1;
      var front := specs[..n];
      PassWorksExactly(doc, front);
      forall i: nat | i < n ensures front[..i] == specs[..i] {}
      var before := SetAll(Some(doc), AllWrites(front));
      SetAllConcat(Some(doc), AllWrites(front), WritesOf(specs[n]));
      LastSpec(before, specs[n]);
      assert SetAll(Some(doc), AllWrites(specs)).Some? <==> SpecWorks(before, specs[n]);
    }
  }

  lemma NothingToWrite(doc: Node)
    ensures SetAll(Some(doc), AllWrites([])) == Some(doc)
  {
  }

  lemma LastSpec(before: Option<Node>, s: Spec)
    ensures SetAll(before, WritesOf(s)).Some? <==> SpecWorks(before, s)
  {
    if before.None? {
      NoneStays(WritesOf(s));
    } else if s.tagPath != "" {
      SpecWorksExactly(before.value, s);
    }
  }

  lemma {:induction false} WriteBelongs(specs: seq<Spec>, k: nat) returns (i: nat)
    requires k < |AllWrites(specs)|
    ensures i < |specs| && specs[i].tagPath != "" && AllWrites(specs)[k] in WritesOf(specs[i])
    decreases |specs|
  {
    var n := |specs| - 1;
    if k < |AllWrites(specs[..n])| {
      i := WriteBelongs(specs[..n], k);
    } else {
      i := n;
    }
  }

  /** A tag path that ends with a dot is not apart from its own sibling. */
  lemma {:induction false} ApartHasNoTrailingDot(specs: seq<Spec>, i: nat)
    requires AllApart(AllWrites(specs)) && i < |specs| && specs[i].tagPath != ""
    ensures specs[i].tagPath[|specs[i].tagPath| - 1] != '.'
  {
    hide Keys, SiblingPath, AllWrites;
    var ws, s := AllWrites(specs), specs[i];
    var k := WritesOfSpec(specs, i);
    assert ws[k] == ws[k..k + 2][0] && ws[k + 1] == ws[k..k + 2][1];
    SiblingStandsBesideExactly(s.tagPath, "repository");
    assert Apart(ws[k].keys, ws[k + 1].keys);
  }

  lemma SiblingCanBeWritten(doc: Node, p: Path, v: string, q: Path, w: string)
    requires Set(doc, p, v).Some? && |q| > 0 && q[..|q| - 1] == p[..|p| - 1]
    ensures Set(doc, q, w).Some?
  {
    SetWorksExactly(doc, p, v);
    SetWorksExactly(doc, q, w);
    forall i: nat | i < |q| ensures Get(doc, q[..i]).None? || Get(doc, q[..i]).value.Map? {
      assert q[..i] == q[..|q| - 1][..i] == p[..|p| - 1][..i] == p[..i];
    }
  }

  /** With paths apart, exactly when every tag path can be written in the file as it was. */
  lemma {:induction false} PassWorksOnTheFile(doc: Node, specs: seq<Spec>)
    requires AllApart(AllWrites(specs))
    ensures SetAll(Some(doc), AllWrites(specs)).Some?
       <==> forall i: nat | i < |specs| && specs[i].tagPath != "" ::
              Set(doc, Keys(specs[i].tagPath), specs[i].version).Some?
  {
    hide Keys, AllWrites, SetAll, Set, AllApart, SiblingPath;
    var ws := AllWrites(specs);
    WritesWorkExactly(doc, ws);
    if SetAll(Some(doc), ws).Some? {
      forall i: nat | i < |specs| && specs[i].tagPath != ""
        ensures Set(doc, Keys(specs[i].tagPath), specs[i].version).Some?
      {
        var k := WritesOfSpec(specs, i);
        assert ws[k] == ws[k..k + 2][0];
      }
    } else {
      var k: nat :| k < |ws| && !Set(doc, ws[k].keys, ws[k].value).Some?;
      var i := WriteBelongs(specs, k);
      TagFails(doc, specs, i, ws[k]);
    }
  }

  lemma {:induction false} TagFails(doc: Node, specs: seq<Spec>, i: nat, w: Write)
    requires AllApart(AllWrites(specs)) && i < |specs| && specs[i].tagPath != "" && w in WritesOf(specs[i])
    ensures Set(doc, Keys(specs[i].tagPath), specs[i].version).Some? ==> Set(doc, w.keys, w.value).Some?
  {
    hide Keys, AllWrites, Set, AllApart, SiblingPath;
    var s := specs[i];
    ApartHasNoTrailingDot(specs, i);
    SiblingStandsBesideExactly(s.tagPath, "repository");
    var p, q := Keys(s.tagPath), Keys(SiblingPath(s.tagPath, "repository"));
    if Set(doc, p, s.version).Some? { SiblingCanBeWritten(doc, p, s.version, q, s.repository); }
  }

  // ---------------------------------------------------------------------------------------------
  // Dotted paths.
  // ---------------------------------------------------------------------------------------------

  /** `a.b` is the path of `a` and then that of `b`; a word without a dot is one key. */
  lemma KeysOfPath(a: string, b: string)
    ensures Keys(a + "." + b) == Keys(a) + Keys(b)
    ensures b != "" && '.' !in b ==> Keys(b) == [b]
  {
    SplitConcat('.', a, b);
    NonEmptyConcat(Split('.', a), Split('.', b));
    if b != "" && '.' !in b {
      SplitOfWord('.', b);
      AllNonEmpty([b]);
    }
  }

  /** A spec of `front.last`: the version stands under the keys of `front` and `last`, the repository beside it. */
  lemma ImageIsReadBack(doc: Node, specs: seq<Spec>, i: nat, front: string, last: string)
    requires SetAll(Some(doc), AllWrites(specs)).Some? && AllApart(AllWrites(specs))
    requires i < |specs| && specs[i].tagPath == front + "." + last && last != "" && '.' !in last
    ensures var result := SetAll(Some(doc), AllWrites(specs)).value;
      Get(result, Keys(front) + [last]) == Some(Leaf(specs[i].version))
      && Get(result, Keys(front) + ["repository"]) == Some(Leaf(specs[i].repository))
  {
    hide Keys, SiblingPath, SetAll, AllWrites, AllApart, Get;
    var path := front + "." + last;
    SpecsAreReadBack(doc, specs, i);
    KeysOfPath(front, last);
    assert path[|path| - 1] == last[|last| - 1] && last[|last| - 1] in last;
    SiblingStandsBesideExactly(path, "repository");
    assert (Keys(front) + [last])[..|Keys(front)|] == Keys(front);
  }

  // ---------------------------------------------------------------------------------------------
  // Raw image lines.
  // ---------------------------------------------------------------------------------------------

  datatype FileChange = RawText(text: string) | Document(doc: Node) | Fails

  function RawSpecs(specs: seq<Spec>): seq<Spec> {
    if specs == [] then [] else (if specs[0].raw then [specs[0]] else []) + RawSpecs(specs[1..])
  }

  function StructuredSpecs(specs: seq<Spec>): seq<Spec> {
    if specs == [] then [] else (if specs[0].raw then [] else [specs[0]]) + StructuredSpecs(specs[1..])
  }

  function SubTags(text: string, specs: seq<Spec>): string {
    if specs == [] then text
    else
      var n := |specs| - 1;
      RewriterPatterns.Apply(Rewriters.ImageTag(specs[n].repository), SubTags(text, specs[..n]), specs[n].version)
  }

  function ChangeOfFile(text: string, doc: Node, specs: seq<Spec>): FileChange {
    if RawSpecs(specs) != [] then RawText(SubTags(text, RawSpecs(specs)))
    else match SetAll(Some(doc), AllWrites(StructuredSpecs(specs)))
         case None => Fails
         case Some(result) => Document(result)
  }

  lemma {:induction false} RawsOfRaws(specs: seq<Spec>)
    ensures RawSpecs(RawSpecs(specs)) == RawSpecs(specs)
    decreases |specs|
  {
    if specs != [] {
      RawsOfRaws(specs[1..]);
      var rest := RawSpecs(specs[1..]);
      assert ([specs[0]] + rest)[1..] == rest && [] + rest == rest;
    }
  }

  lemma {:induction false} RawsExactly(specs: seq<Spec>)
    ensures RawSpecs(specs) != [] <==> exists s :: s in specs && s.raw
    ensures RawSpecs(specs) == [] ==> StructuredSpecs(specs) == specs
    decreases |specs|
  {
    if specs != [] {
      RawsExactly(specs[1..]);
      assert specs == [specs[0]] + specs[1..];
      assert specs[0] in specs && forall s :: s in specs <==> s == specs[0] || s in specs[1..];
    }
  }

  /** A single raw image line in a file puts all its structured specs out of action; without one, all of them
      are applied. */
  lemma RawShadowsStructured(text: string, doc: Node, specs: seq<Spec>)
    ensures (exists s :: s in specs && s.raw) ==>
      ChangeOfFile(text, doc, specs) == ChangeOfFile(text, doc, RawSpecs(specs))
      && ChangeOfFile(text, doc, specs).RawText?
    ensures (forall s | s in specs :: !s.raw) ==>
      ChangeOfFile(text, doc, specs)
      == match SetAll(Some(doc), AllWrites(specs)) case None => Fails case Some(result) => Document(result)
  {
    RawsOfRaws(specs);
    RawsExactly(specs);
  }
}
