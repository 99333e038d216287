/** `set_nested` on a mutable document: mappings that hold mappings, updated in place. */
module HelmDocument {
  import opened Text
  import opened HelmValues
  import Rewriters
  import RewriterPatterns
  import RawImages

  datatype Value = Scalar(text: string) | Sub(mapping: Mapping)

  /** In a missing level every path can be created. */
  lemma {:induction false} SetInMissing(keys: Path, value: string)
    requires keys != []
    ensures Set(Map(map[]), keys, value).Some?
    decreases |keys|
  {
    if |keys| > 1 { SetInMissing(keys[1..], value); }
  }

  /** A loaded mapping.  `doc` is its content as a value; `Repr` are the mappings below it, each reached in one
      way only. */
  class Mapping {
    var entries: map<string, Value>
    ghost var doc: map<string, Node>
    ghost var Repr: set<object>

    ghost predicate Valid()
      reads this, Repr
      decreases Repr
    {
      && this in Repr
      && entries.Keys == doc.Keys
      && (forall k | k in entries && entries[k].Scalar? :: doc[k] == Leaf(entries[k].text))
      && (forall k | k in entries && entries[k].Sub? ::
            var m := entries[k].mapping;
            m in Repr && m.Repr <= Repr && this !in m.Repr && m.Valid() && doc[k] == Map(m.doc))
      && (forall k, l | k in entries && l in entries && k != l && entries[k].Sub? && entries[l].Sub? ::
            entries[k].mapping.Repr !! entries[l].mapping.Repr)
    }

    constructor ()
      ensures Valid() && fresh(Repr) && doc == map[]
    {
      entries, doc := map[], map[];
      Repr := {this};
    }

    /** The next level, created in place when it is missing; `null` when something else stands there. */
    method Level(key: string) returns (child: Mapping?)
      requires Valid()
      modifies this
      ensures Valid() && fresh(Repr - old(Repr))
      ensures child == null ==> key in old(doc) && old(doc)[key].Leaf? && doc == old(doc)
      ensures child != null ==> key in entries && entries[key] == Sub(child)
      ensures child != null ==> Map(child.doc) == ChildOf(Map(old(doc)), key) && doc == old(doc)[key := Map(child.doc)]
      ensures child != null && key in old(doc) ==> doc == old(doc)
      ensures child != null && key !in old(doc) ==> child.doc == map[]
    {
      if key !in entries {
        var created := new Mapping();
        entries := entries[key := Sub(created)];
        doc := doc[key := Map(map[])];
        Repr := Repr + created.Repr;
        return created;
      }
      match entries[key]
      case Scalar(_) => child := null;
      case Sub(m) => child := m;
    }

    /** After a level was updated in place, this mapping's view of it. */
    ghost method Refresh(key: string, child: Mapping)
      requires key in entries && entries[key] == Sub(child) && child.Valid() && this !in child.Repr && this in Repr
      requires entries.Keys == doc.Keys
      requires forall k | k in entries && entries[k].Scalar? :: doc[k] == Leaf(entries[k].text)
      requires forall k | k in entries && k != key && entries[k].Sub? ::
                 var m := entries[k].mapping;
                 m in Repr && m.Repr <= Repr && this !in m.Repr && m.Valid() && doc[k] == Map(m.doc)
      requires forall k, l | k in entries && l in entries && k != l && entries[k].Sub? && entries[l].Sub? ::
                 entries[k].mapping.Repr !! entries[l].mapping.Repr
      modifies this`doc, this`Repr
      ensures Valid() && doc == old(doc)[key := Map(child.doc)] && Repr == old(Repr) + child.Repr
    {
      doc := doc[key := Map(child.doc)];
      Repr := Repr + child.Repr;
    }

    /** The rest of the descent, in the level `child`. */
    method Below(key: string, child: Mapping, rest: Path, value: string) returns (ok: bool)
      requires Valid() && key in entries && entries[key] == Sub(child)
      modifies Repr
      ensures Valid() && fresh(Repr - old(Repr))
      ensures var inner := Set(Map(old(child.doc)), rest, value);
        (ok <==> inner.Some?) && doc == if ok then old(doc)[key := inner.value] else old(doc)
      decreases |rest|, 2
    {
      hide Set;
      assert doc[key] == Map(child.doc);
      ok := child.SetNested(rest, value);
      Refresh(key, child);
    }

    method Assign(key: string, value: string)
      requires Valid()
      modifies this
      ensures Valid() && Repr == old(Repr) && doc == old(doc)[key := Leaf(value)]
    {
      entries := entries[key := Scalar(value)];
      doc := doc[key := Leaf(value)];
    }

    /** One step of the descent. */
    method Descend(keys: Path, value: string) returns (ok: bool)
      requires Valid() && |keys| > 1
      modifies Repr
      ensures Valid() && fresh(Repr - old(Repr))
      ensures ok <==> Set(Map(old(doc)), keys, value).Some?
      ensures Map(doc) == if ok then Set(Map(old(doc)), keys, value).value else Map(old(doc))
      decreases |keys|, 0
    {
      assert this in Repr;
      hide Set, ChildOf, Valid;
      SetStep(doc, keys, value);
      ghost var before, inner := doc, Set(ChildOf(Map(doc), keys[0]), keys[1..], value);
      var child := Level(keys[0]);
      if child == null {
        return false;
      }
      ghost var level := Map(child.doc);
      ok := Below(keys[0], child, keys[1..], value);
      assert ok ==> doc == before[keys[0] := level][keys[0] := inner.value] == before[keys[0] := inner.value];
    }

    /** Each step of the descent is one call; the last key is assigned.  `false` is the exception, and the
        document is then as it was. */
    method SetNested(keys: Path, value: string) returns (ok: bool)
      requires Valid()
      modifies Repr
      ensures Valid() && fresh(Repr - old(Repr))
      ensures ok <==> Set(Map(old(doc)), keys, value).Some?
      ensures Map(doc) == if ok then Set(Map(old(doc)), keys, value).value else Map(old(doc))
      decreases |keys|, 1
    {
      assert this in Repr;
      hide Set, Valid;
      if keys == [] {
        SetNothing(doc, value);
        return false;
      }
      if |keys| == 1 {
        SetOne(doc, keys, value);
        Assign(keys[0], value);
        return true;
      }
      ok := Descend(keys, value);
    }
  }

  lemma SetNothing(doc: map<string, Node>, value: string)
    ensures Set(Map(doc), [], value) == None
  {
  }

  lemma SetOne(doc: map<string, Node>, keys: Path, value: string)
    requires |keys| == 1
    ensures Set(Map(doc), keys, value) == Some(Map(doc[keys[0] := Leaf(value)]))
  {
  }

  /** What one step of the descent leaves to do. */
  lemma SetStep(doc: map<string, Node>, keys: Path, value: string)
    requires |keys| > 1
    ensures var inner := Set(ChildOf(Map(doc), keys[0]), keys[1..], value);
      && Set(Map(doc), keys, value) == (if inner.Some? then Some(Map(doc[keys[0] := inner.value])) else None)
      && (keys[0] !in doc ==> inner.Some?)
      && (keys[0] in doc && doc[keys[0]].Leaf? ==> inner == None)
      && (inner.Some? ==> inner.value.Map?)
  {
    SetIsWrap(Map(doc), keys, value);
    if keys[0] !in doc { SetInMissing(keys[1..], value); }
  }

  /** The two writes of one spec. */
  method ApplySpec(doc: Mapping, spec: Spec) returns (ok: bool)
    requires doc.Valid()
    modifies doc.Repr
    ensures doc.Valid() && fresh(doc.Repr - old(doc.Repr))
    ensures ok <==> SetAll(Some(Map(old(doc.doc))), WritesOf(spec)).Some?
    ensures ok ==> Some(Map(doc.doc)) == SetAll(Some(Map(old(doc.doc))), WritesOf(spec))
  {
    ghost var before := doc.doc;
    if spec.tagPath == "" {
      return true;
    }
    TwoWrites(Some(Map(before)), WritesOf(spec));
    hide Set, SetAll, Keys, SiblingPath;
    ok := doc.SetNested(Keys(spec.tagPath), spec.version);
    if ok {
      ok := doc.SetNested(Keys(SiblingPath(spec.tagPath, "repository")), spec.repository);
    }
  }

  /** The loop over the structured specs of one file.  A failure ends the program. */
  method ApplySpecs(doc: Mapping, specs: seq<Spec>) returns (ok: bool)
    requires doc.Valid()
    modifies doc.Repr
    ensures doc.Valid() && fresh(doc.Repr - old(doc.Repr))
    ensures ok <==> SetAll(Some(Map(old(doc.doc))), AllWrites(specs)).Some?
    ensures ok ==> Some(Map(doc.doc)) == SetAll(Some(Map(old(doc.doc))), AllWrites(specs))
  {
    ghost var start := Some(Map(doc.doc));
    NoWrites(start);
    for i := 0 to |specs|
      invariant doc.Valid() && fresh(doc.Repr - old(doc.Repr))
      invariant Some(Map(doc.doc)) == SetAll(start, AllWrites(specs[..i]))
    {
      hide SetAll, AllWrites, WritesOf;
      ghost var done := AllWrites(specs[..i]);
      WritesUpTo(start, specs, i);
      ok := ApplySpec(doc, specs[i]);
      if !ok {
        return false;
      }
    }
    assert specs[..|specs|] == specs;
    ok := true;
  }

  lemma NoWrites(o: Option<Node>)
    ensures SetAll(o, AllWrites([])) == o
  {
  }

  /** What the writes up to spec `i` leave to the rest of them. */
  lemma WritesUpTo(o: Option<Node>, specs: seq<Spec>, i: nat)
    requires i < |specs|
    ensures specs[..i] + [] == specs[..i]
    ensures SetAll(o, AllWrites(specs[..i + 1])) == SetAll(SetAll(o, AllWrites(specs[..i])), WritesOf(specs[i]))
    ensures SetAll(SetAll(o, AllWrites(specs[..i])), WritesOf(specs[i])) == None ==> SetAll(o, AllWrites(specs)) == None
  {
    hide SetAll, AllWrites, WritesOf;
    var front, rest := specs[..i + 1], specs[i + 1..];
    assert front == specs[..i] + [specs[i]] && specs == front + rest;
    OneSpec(specs[i]);
    AllWritesConcat(specs[..i], [specs[i]]);
    AllWritesConcat(front, rest);
    SetAllConcat(o, AllWrites(specs[..i]), WritesOf(specs[i]));
    SetAllConcat(o, AllWrites(front), AllWrites(rest));
    NoneStays(AllWrites(rest));
  }

  /** The body of the loop over the files: the patched text of a file with raw image lines, or the document
      updated in place. */
  method ComputeFile(text: string, doc: Mapping, specs: seq<Spec>) returns (raw: Option<string>, ok: bool)
    requires doc.Valid()
    modifies doc.Repr
    ensures ChangeOfFile(text, Map(old(doc.doc)), specs)
         == (match raw
             case Some(patched) => RawText(patched)
             case None => if ok then Document(Map(doc.doc)) else Fails)
    ensures raw.Some? ==> doc.doc == old(doc.doc)
    ensures raw.Some? <==> exists s :: s in specs && s.raw
    ensures raw.Some? && RawImages.Separate(specs) ==> RawImages.Retagged(text, raw.value, specs)
  {
    hide RewriterPatterns.Apply, RawSpecs, StructuredSpecs, SetAll, AllWrites, RawImages.Separate, RawImages.Retagged;
    RawsExactly(specs);
    var raws := RawSpecs(specs);
    if raws != [] {
      var patched := text;
      for i := 0 to |raws|
        invariant patched == SubTags(text, raws[..i])
        invariant doc.Valid() && doc.doc == old(doc.doc)
      {
        assert raws[..i + 1][..i] == raws[..i];
        patched := RewriterPatterns.Apply(Rewriters.ImageTag(raws[i].repository), patched, raws[i].version);
      }
      assert raws[..|raws|] == raws;
      if RawImages.Separate(specs) { RawImages.RawsRetagged(text, specs); }
      return Some(patched), true;
    }
    raw := None;
    ok := ApplySpecs(doc, StructuredSpecs(specs));
  }
}
