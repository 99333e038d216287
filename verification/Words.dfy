/** `str.split` at a single character, and joining again. */
module Words {
  import opened Text

  /** `s.split(x)` */
  function Split(x: char, s: string): (p: seq<string>)
    ensures |p| > 0
  {
    if s == "" then [""]
    else var rest := Split(x, s[1..]); if s[0] == x then [""] + rest else [[s[0]] + rest[0]] + rest[1..]
  }

  /** `x.join(p)` */
  function Join(x: char, p: seq<string>): string {
    if p == [] then "" else if |p| == 1 then p[0] else p[0] + [x] + Join(x, p[1..])
  }

  /** The pieces that are not empty. */
  function NonEmpty(p: seq<string>): seq<string> {
    if p == [] then [] else (if p[0] == "" then [] else [p[0]]) + NonEmpty(p[1..])
  }

  ghost predicate Free(x: char, p: seq<string>) { forall i: nat | i < |p| :: x !in p[i] }

  lemma {:induction false} SplitHasNone(x: char, s: string)
    ensures Free(x, Split(x, s))
    decreases |s|
  {
    if s != "" { SplitHasNone(x, s[1..]); }
  }

  lemma {:induction false} SplitOfWord(x: char, w: string)
    requires x !in w
    ensures Split(x, w) == [w]
    decreases |w|
  {
    if w != "" {
      assert w == [w[0]] + w[1..];
      SplitOfWord(x, w[1..]);
    }
  }

  lemma {:induction false} SplitAtWord(x: char, w: string, s: string)
    requires x !in w
    ensures Split(x, w + [x] + s) == [w] + Split(x, s)
    decreases |w|
  {
    var t := w + [x] + s;
    if w == "" {
      assert t[1..] == s;
    } else {
      assert w == [w[0]] + w[1..];
      SplitAtWord(x, w[1..], s);
      assert t[1..] == w[1..] + [x] + s;
      assert ([w[1..]] + Split(x, s))[1..] == Split(x, s);
    }
  }

  lemma SplitCons(x: char, c: char, s: string)
    ensures var p := Split(x, s);
      Split(x, [c] + s) == if c == x then [""] + p else [[c] + p[0]] + p[1..]
  {
    assert ([c] + s)[1..] == s;
  }

  /** Splitting at a separator. */
  lemma {:induction false} SplitConcat(x: char, a: string, b: string)
    ensures Split(x, a + [x] + b) == Split(x, a) + Split(x, b)
    decreases |a|
  {
    hide Split;
    var q := Split(x, b);
    if a == "" {
      SplitOfWord(x, "");
      SplitCons(x, x, b);
      assert "" + [x] + b == [x] + b;
    } else {
      var p := Split(x, a[1..]);
      SplitConcat(x, a[1..], b);
      SplitCons(x, a[0], a[1..] + [x] + b);
      SplitCons(x, a[0], a[1..]);
      assert a + [x] + b == [a[0]] + (a[1..] + [x] + b) && a == [a[0]] + a[1..];
      FirstJoined(p, q, a[0]);
    }
  }

  lemma FirstJoined(p: seq<string>, q: seq<string>, c: char)
    requires p != []
    ensures [""] + (p + q) == [""] + p + q
    ensures (p + q)[0] == p[0] && [[c] + p[0]] + (p + q)[1..] == [[c] + p[0]] + p[1..] + q
  {
  }

  /** Splitting undoes joining. */
  lemma {:induction false} SplitJoin(x: char, p: seq<string>)
    requires p != [] && Free(x, p)
    ensures Split(x, Join(x, p)) == p
    decreases |p|
  {
    assert x !in p[0];
    if |p| == 1 {
      SplitOfWord(x, p[0]);
    } else {
      SplitJoin(x, p[1..]);
      SplitAtWord(x, p[0], Join(x, p[1..]));
      assert p == [p[0]] + p[1..];
    }
  }

  lemma {:induction false} LastOfSplit(x: char, s: string)
    ensures var p := Split(x, s); p[|p| - 1] == "" <==> s == "" || s[|s| - 1] == x
    decreases |s|
  {
    if s != "" {
      LastOfSplit(x, s[1..]);
      if |s| == 1 { assert s[1..] == ""; }
      FirstOfSplit(x, s[1..]);
    }
  }

  lemma FirstOfSplit(x: char, s: string)
    ensures |Split(x, s)| == 1 ==> s == "" || s[|s| - 1] != x
  {
    if s != "" && s[|s| - 1] == x { SplitOfEnd(x, s); }
  }

  lemma {:induction false} SplitOfEnd(x: char, s: string)
    requires s != "" && s[|s| - 1] == x
    ensures |Split(x, s)| > 1
    decreases |s|
  {
    if |s| > 1 { SplitOfEnd(x, s[1..]); }
  }

  lemma {:induction false} NonEmptyConcat(p: seq<string>, q: seq<string>)
    ensures NonEmpty(p + q) == NonEmpty(p) + NonEmpty(q)
    decreases |p|
  {
    if p == [] {
      assert p + q == q;
    } else {
      assert (p + q)[1..] == p[1..] + q;
      NonEmptyConcat(p[1..], q);
    }
  }

  lemma {:induction false} AllNonEmpty(p: seq<string>)
    requires "" !in p
    ensures NonEmpty(p) == p
    decreases |p|
  {
    if p != [] {
      assert p == [p[0]] + p[1..];
      AllNonEmpty(p[1..]);
    }
  }
}
