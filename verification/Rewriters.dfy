/** The rewriters that anchor on a stable key and replace the value next to it: `sub_image_tag`,
    `sub_from_tag`, `sub_env_value` and the realm pass.  One specification covers the four, and all of them
    obey the lens laws. */
module Rewriters {
  import opened Text
  import opened Regex

  datatype Rule =
    | ImageTag(repository: string)             // (image:\s*)repository:[^\s"']+
    | FromTag(repository: string)              // (FROM\s+)repository:[^\s]+
    | EnvValue(name: string, quote: char)      // (- name: NAME\n(?:[ \t]*#[^\n]*\n)*[ \t]*value: q)[^q]*(q)
    | Realm                                    // realms/[a-zA-Z0-9_-]+

  /** What the patterns take for granted: a repository does not start with white space, a variable name stays
      on its line, and the quote is not the dash that opens an entry. */
  ghost predicate WellFormed(rule: Rule) {
    match rule
    case ImageTag(repository) => !IsSpace((repository + ":")[0])
    case FromTag(repository) => !IsSpace((repository + ":")[0])
    case EnvValue(name, quote) => '\n' !in name && quote != '-'
    case Realm => true
  }

  function ValueClass(rule: Rule): Class {
    match rule
    case ImageTag(_) => NotSpaceOrQuote
    case FromTag(_) => NotSpace
    case EnvValue(_, quote) => Except(quote)
    case Realm => RealmChar
  }

  ghost predicate ValidValue(rule: Rule, v: string) {
    All(ValueClass(rule), v) && (rule.EnvValue? || v != "")
  }

  // ---------------------------------------------------------------------------------------------
  // Keys, values and the rewriting as a specification.
  // ---------------------------------------------------------------------------------------------

  /** Where the comment lines that start at `i` end. */
  function CommentsEnd(u: string, i: nat): (e: nat)
    ensures i <= e && (e == i || (e <= |u| && u[e - 1] == '\n'))
    decreases if i < |u| then |u| - i else 0
  {
    var b := RunEnd(Blank, u, i);
    var n := RunEnd(Except('\n'), u, b);
    if b < |u| && u[b] == '#' && n < |u| then CommentsEnd(u, n + 1) else i
  }

  function EntryName(name: string): string { "- name: " + name + "\n" }

  /** The length of the key at the start of `u`, the part every rewriting keeps. */
  function Key(rule: Rule, u: string): (k: Option<nat>)
    ensures k.Some? ==> 0 < k.value <= |u|
  {
    match rule
    case ImageTag(repository) =>
      var i := RunEnd(Space, u, 6);
      if At(u, 0, "image:") && At(u, i, repository + ":") then Some(i + |repository| + 1) else None
    case FromTag(repository) =>
      var i := RunEnd(Space, u, 4);
      if At(u, 0, "FROM") && i > 4 && At(u, i, repository + ":") then Some(i + |repository| + 1) else None
    case EnvValue(name, quote) =>
      var w := EntryName(name);
      var i := RunEnd(Blank, u, CommentsEnd(u, |w|));
      if At(u, 0, w) && At(u, i, "value: " + [quote]) then Some(i + 8) else None
    case Realm => if At(u, 0, "realms/") then Some(7) else None
  }

  /** The length of the value at the start of `x`. */
  function Value(rule: Rule, x: string): (n: Option<nat>)
    ensures n.Some? ==> n.value <= |x|
  {
    var n := RunEnd(ValueClass(rule), x, 0);
    if rule.EnvValue? then if n < |x| then Some(n) else None
    else if n > 0 then Some(n) else None
  }

  datatype Site = NoSite | Site(key: nat, value: nat)

  function SiteAt(rule: Rule, u: string): (s: Site)
    ensures s.Site? ==> 0 < s.key <= s.key + s.value <= |u|
  {
    var k := Key(rule, u);
    if k.Some? && Value(rule, u[k.value..]).Some? then Site(k.value, Value(rule, u[k.value..]).value) else NoSite
  }

  /** Replaces the value of every site by `v`. */
  function Rewrite(rule: Rule, u: string, v: string): string
    decreases |u|
  {
    if u == "" then ""
    else match SiteAt(rule, u)
         case NoSite => [u[0]] + Rewrite(rule, u[1..], v)
         case Site(k, n) => u[..k] + v + Rewrite(rule, u[k + n..], v)
  }

  /** A text seen through a rule: the values it would replace, and everything else. */
  datatype Layout = Tail(text: string) | Entry(before: string, value: string, rest: Layout)

  function Prepend(c: char, l: Layout): Layout {
    match l
    case Tail(text) => Tail([c] + text)
    case Entry(before, value, rest) => Entry([c] + before, value, rest)
  }

  function LayoutOf(rule: Rule, u: string): Layout
    decreases |u|
  {
    if u == "" then Tail("")
    else match SiteAt(rule, u)
         case NoSite => Prepend(u[0], LayoutOf(rule, u[1..]))
         case Site(k, n) => Entry(u[..k], u[k..k + n], LayoutOf(rule, u[k + n..]))
  }

  function Render(l: Layout): string {
    match l
    case Tail(text) => text
    case Entry(before, value, rest) => before + value + Render(rest)
  }

  function Fill(l: Layout, v: string): Layout {
    match l
    case Tail(text) => l
    case Entry(before, value, rest) => Entry(before, v, Fill(rest, v))
  }

  function Values(l: Layout): seq<string> {
    match l
    case Tail(text) => []
    case Entry(before, value, rest) => [value] + Values(rest)
  }

  // ---------------------------------------------------------------------------------------------
  // Four facts about each rule.
  // ---------------------------------------------------------------------------------------------

  ghost predicate Agree(u: string, w: string, k: nat) {
    k <= |u| && k <= |w| && forall j: nat | j < k :: u[j] == w[j]
  }

  lemma AtAgree(u: string, w: string, k: nat, i: nat, p: string)
    requires Agree(u, w, k) && i + |p| <= k
    ensures At(w, i, p) <==> At(u, i, p)
  {
    assert w[i..i + |p|] == u[i..i + |p|];
  }

  lemma RunEndAgree(c: Class, u: string, w: string, k: nat, i: nat)
    requires Agree(u, w, k) && i <= RunEnd(c, u, i) < k
    ensures RunEnd(c, w, i) == RunEnd(c, u, i)
  {
    RunEndIs(c, w, i, RunEnd(c, u, i));
  }

  predicate IsComment(u: string, i: nat) {
    var b := RunEnd(Blank, u, i);
    b < |u| && u[b] == '#' && RunEnd(Except('\n'), u, b) < |u|
  }

  lemma CommentsStep(u: string, i: nat)
    ensures CommentsEnd(u, i)
         == if IsComment(u, i) then CommentsEnd(u, RunEnd(Except('\n'), u, RunEnd(Blank, u, i)) + 1) else i
  {
    hide RunEnd;
  }

  lemma {:induction false} CommentsAgree(u: string, w: string, k: nat, i: nat)
    requires Agree(u, w, k)
    requires var b := RunEnd(Blank, u, CommentsEnd(u, i)); b < k && u[b] != '#'
    ensures CommentsEnd(w, i) == CommentsEnd(u, i)
    decreases k - i
  {
    hide RunEnd, CommentsEnd;
    CommentsStep(u, i);
    CommentsStep(w, i);
    var b := RunEnd(Blank, u, i);
    if IsComment(u, i) {
      var n := RunEnd(Except('\n'), u, b);
      RunEndAgree(Blank, u, w, k, i);
      RunEndAgree(Except('\n'), u, w, k, b);
      CommentsAgree(u, w, k, n + 1);
    } else {
      RunEndAgree(Blank, u, w, k, i);
    }
  }

  lemma CommentShift(u: string, m: nat, i: nat)
    requires m + i <= |u|
    ensures var x := u[m..]; var n := RunEnd(Except('\n'), x, RunEnd(Blank, x, i));
      && (IsComment(x, i) <==> IsComment(u, m + i))
      && (IsComment(x, i) ==> i <= n < |x| && RunEnd(Except('\n'), u, RunEnd(Blank, u, m + i)) == m + n)
  {
    hide RunEnd;
    var x := u[m..];
    RunEndShift(Blank, u, m, i);
    var b := RunEnd(Blank, x, i);
    if b <= |x| { RunEndShift(Except('\n'), u, m, b); }
    assert b < |x| ==> x[b] == u[m + b];
  }

  lemma {:induction false} CommentsShift(u: string, m: nat, i: nat)
    requires m + i <= |u|
    ensures CommentsEnd(u[m..], i) + m == CommentsEnd(u, m + i)
    decreases |u| - i
  {
    hide RunEnd, CommentsEnd, IsComment;
    var x := u[m..];
    CommentsStep(x, i);
    CommentsStep(u, m + i);
    CommentShift(u, m, i);
    if IsComment(x, i) { CommentsShift(u, m, RunEnd(Except('\n'), x, RunEnd(Blank, x, i)) + 1); }
  }

  /** The comment lines after any line break inside them end where all of them end. */
  lemma {:induction false} CommentsFromInside(u: string, i: nat, y: nat)
    requires i <= y < CommentsEnd(u, i) <= |u| && u[y] == '\n'
    ensures CommentsEnd(u, y + 1) == CommentsEnd(u, i)
    decreases |u| - i
  {
    hide RunEnd, CommentsEnd;
    CommentsStep(u, i);
    var b := RunEnd(Blank, u, i);
    var n := RunEnd(Except('\n'), u, b);
    if y > n {
      CommentsFromInside(u, n + 1, y);
    }
  }

  lemma ImageKeyAgree(repository: string, u: string, w: string, k: nat)
    requires WellFormed(ImageTag(repository)) && Key(ImageTag(repository), u) == Some(k) && Agree(u, w, k)
    ensures Key(ImageTag(repository), w) == Some(k)
  {
    hide RunEnd;
    var i := RunEnd(Space, u, 6);
    AtAgree(u, w, k, 0, "image:");
    RunEndAgree(Space, u, w, k, 6);
    AtAgree(u, w, k, i, repository + ":");
  }

  lemma FromKeyAgree(repository: string, u: string, w: string, k: nat)
    requires WellFormed(FromTag(repository)) && Key(FromTag(repository), u) == Some(k) && Agree(u, w, k)
    ensures Key(FromTag(repository), w) == Some(k)
  {
    hide RunEnd;
    var i := RunEnd(Space, u, 4);
    AtAgree(u, w, k, 0, "FROM");
    RunEndAgree(Space, u, w, k, 4);
    AtAgree(u, w, k, i, repository + ":");
  }

  lemma EnvKeyAgree(name: string, quote: char, u: string, w: string, k: nat)
    requires Key(EnvValue(name, quote), u) == Some(k) && Agree(u, w, k)
    ensures Key(EnvValue(name, quote), w) == Some(k)
  {
    hide RunEnd, CommentsEnd;
    var p := EntryName(name);
    var c := CommentsEnd(u, |p|);
    var i := RunEnd(Blank, u, c);
    assert u[i..i + 8][0] == 'v';
    CommentsAgree(u, w, k, |p|);
    RunEndAgree(Blank, u, w, k, c);
    AtAgree(u, w, k, 0, p);
    AtAgree(u, w, k, i, "value: " + [quote]);
  }

  /** A key is recognised by its own characters alone. */
  lemma KeyAgree(rule: Rule, u: string, w: string, k: nat)
    requires WellFormed(rule) && Key(rule, u) == Some(k) && Agree(u, w, k)
    ensures Key(rule, w) == Some(k)
  {
    hide Key, Agree;
    match rule
    case ImageTag(repository) => ImageKeyAgree(repository, u, w, k);
    case FromTag(repository) => FromKeyAgree(repository, u, w, k);
    case EnvValue(name, quote) => EnvKeyAgree(name, quote, u, w, k);
    case Realm => RealmKeyAgree(u, w, k);
  }

  lemma RealmKeyAgree(u: string, w: string, k: nat)
    requires Key(Realm, u) == Some(k) && Agree(u, w, k)
    ensures Key(Realm, w) == Some(k)
  {
    AtAgree(u, w, k, 0, "realms/");
  }

  lemma WordPastSpaces(u: string, m: nat, w: string)
    requires At(u, 0, w) && At(u, m, w) && m > 0
    requires w != "" && !IsSpace(w[0]) && w[0] !in w[1..]
    ensures RunEnd(Space, u, |w|) <= m
  {
    hide RunEnd;
    assert u[m] == u[m..m + |w|][0] == w[0];
    assert forall j: nat | 0 < j < |w| :: u[j] == u[0..|w|][j] == w[1..][j - 1];
  }

  /** A text with one line break, at its end, cannot overlap itself. */
  lemma LineBreakAt(u: string, m: nat, p: string)
    requires At(u, 0, p) && At(u, m, p) && 0 < m
    requires p != "" && p[|p| - 1] == '\n' && '\n' !in p[..|p| - 1]
    ensures |p| <= m && m + |p| <= |u| && u[m + |p| - 1] == '\n'
  {
    assert forall j: nat | j < |p| :: u[j] == u[0..|p|][j] == p[j];
    assert forall j: nat | j < |p| :: u[m + j] == u[m..m + |p|][j] == p[j];
    assert forall j: nat | j < |p| - 1 :: p[j] == p[..|p| - 1][j];
  }

  lemma BlanksEndBefore(u: string, c: nat, y: nat)
    requires c <= y < |u| && u[y] == '\n'
    ensures RunEnd(Blank, u, c) <= y
  {
    assert !In(Blank, u[y]);
  }

  lemma EntryNameShape(name: string)
    requires '\n' !in name
    ensures var p := EntryName(name); p != "" && p[|p| - 1] == '\n' && '\n' !in p[..|p| - 1]
  {
    var p := EntryName(name);
    assert p[..|p| - 1] == "- name: " + name;
    assert '\n' !in "- name: ";
  }

  /** Reading comment lines and blanks from any later line start never stops earlier. */
  lemma LaterStartLaterEnd(u: string, i: nat, j: nat)
    requires i < j <= |u| && u[j - 1] == '\n' && CommentsEnd(u, i) <= |u|
    ensures RunEnd(Blank, u, CommentsEnd(u, i)) <= RunEnd(Blank, u, CommentsEnd(u, j))
  {
    hide *;
    if j <= CommentsEnd(u, i) {
      CommentsFromInside(u, i, j - 1);
    } else {
      BlanksEndBefore(u, CommentsEnd(u, i), j - 1);
    }
  }

  lemma EntryShift(u: string, m: nat, p: string)
    requires m + |p| <= |u|
    ensures m + RunEnd(Blank, u[m..], CommentsEnd(u[m..], |p|)) == RunEnd(Blank, u, CommentsEnd(u, m + |p|))
  {
    hide RunEnd, CommentsEnd;
    CommentsShift(u, m, |p|);
    RunEndShift(Blank, u, m, CommentsEnd(u[m..], |p|));
  }

  lemma EnvKeyShape(name: string, quote: char, u: string, m: nat)
    requires m <= |u| && Key(EnvValue(name, quote), u[m..]).Some?
    ensures var p := EntryName(name); var x := u[m..];
      At(u, m, p) && CommentsEnd(x, |p|) <= |x|
      && Key(EnvValue(name, quote), x) == Some(RunEnd(Blank, x, CommentsEnd(x, |p|)) + 8)
  {
    hide RunEnd, CommentsEnd;
    var p := EntryName(name);
    assert u[m..][0..|p|] == u[m..m + |p|];
  }

  lemma EntriesDoNotNest(name: string, quote: char, u: string, k: nat, m: nat, k2: nat)
    requires '\n' !in name && 0 < m < k <= |u|
    requires Key(EnvValue(name, quote), u) == Some(k) && Key(EnvValue(name, quote), u[m..]) == Some(k2)
    ensures k <= m + k2
  {
    hide RunEnd, CommentsEnd, EntryName, Key;
    var p := EntryName(name);
    assert u[0..] == u;
    EntryNameShape(name);
    EnvKeyShape(name, quote, u, 0);
    EnvKeyShape(name, quote, u, m);
    LineBreakAt(u, m, p);
    hide At;
    LaterStartLaterEnd(u, |p|, m + |p|);
    EntryShift(u, m, p);
  }

  /** Keys do not nest: a key that starts inside another ends no earlier than it. */
  lemma KeysDoNotNest(rule: Rule, u: string, k: nat, m: nat, k2: nat)
    requires WellFormed(rule) && Key(rule, u) == Some(k) && 0 < m < k && Key(rule, u[m..]) == Some(k2)
    ensures k <= m + k2
  {
    hide RunEnd, CommentsEnd;
    match rule
    case ImageTag(repository) =>
      assert u[m..][0..6] == u[m..m + 6];
      WordPastSpaces(u, m, "image:");
    case FromTag(repository) =>
      assert u[m..][0..4] == u[m..m + 4];
      WordPastSpaces(u, m, "FROM");
    case EnvValue(name, quote) =>
      EntriesDoNotNest(name, quote, u, k, m, k2);
    case Realm =>
  }

  /** Whether a value starts at the end of `a` depends on what follows only in that a value may start there. */
  lemma ValueThrough(rule: Rule, a: string, b: string, c: string)
    requires Value(rule, b).Some? && Value(rule, a + c).Some?
    ensures Value(rule, a + b).Some?
  {
    var k := ValueClass(rule);
    if rule.EnvValue? {
      var n := RunEnd(k, b, 0);
      assert (a + b)[|a| + n] == b[n] && !In(k, b[n]);
    } else if a == "" {
      assert a + b == b;
    } else {
      assert In(k, (a + c)[0]) && (a + b)[0] == a[0] == (a + c)[0];
      assert RunEnd(k, a + b, 0) == RunEnd(k, a + b, 1);
    }
  }

  lemma ValueReplaced(rule: Rule, x: string, n: nat, v: string, w: string)
    requires Value(rule, x) == Some(n) && ValidValue(rule, v)
    requires (w == "" <==> x[n..] == "") && (w != "" ==> w[0] == x[n])
    ensures Value(rule, v + w) == Some(|v|)
  {
    var k := ValueClass(rule);
    assert forall j: nat | j < |v| :: (v + w)[j] == v[j] && In(k, v[j]);
    assert n < |x| ==> !In(k, x[n]);
    RunEndIs(k, v + w, 0, |v|);
  }

  // ---------------------------------------------------------------------------------------------
  // The lens laws.
  // ---------------------------------------------------------------------------------------------

  lemma RewriteStart(rule: Rule, u: string, v: string)
    ensures Rewrite(rule, u, v) == "" <==> u == ""
    ensures u != "" ==> Rewrite(rule, u, v)[0] == u[0]
  {
    hide Key, Value;
    if u != "" {
      match SiteAt(rule, u)
      case NoSite =>
      case Site(k, n) => assert u[..k][0] == u[0];
    }
  }

  lemma RewriteStep(rule: Rule, u: string, v: string)
    requires u != ""
    ensures Rewrite(rule, u, v)
         == (match SiteAt(rule, u)
             case NoSite => [u[0]] + Rewrite(rule, u[1..], v)
             case Site(k, n) => u[..k] + v + Rewrite(rule, u[k + n..], v))
  {
    hide SiteAt;
  }

  lemma LayoutStep(rule: Rule, u: string)
    requires u != ""
    ensures LayoutOf(rule, u)
         == (match SiteAt(rule, u)
             case NoSite => Prepend(u[0], LayoutOf(rule, u[1..]))
             case Site(k, n) => Entry(u[..k], u[k..k + n], LayoutOf(rule, u[k + n..])))
  {
    hide SiteAt;
  }

  /** A rewriting leaves a text alone, or leaves it alone up to the end of the first key, at `m`. */
  lemma {:induction false} UnchangedUpToFirstKey(rule: Rule, x: string, v: string) returns (m: nat)
    ensures m <= |x|
    ensures Rewrite(rule, x, v) == x
         || (SiteAt(rule, x[m..]).Site? && Agree(x, Rewrite(rule, x, v), m + SiteAt(rule, x[m..]).key))
    decreases |x|
  {
    hide SiteAt, Rewrite;
    m := 0;
    if x == "" {
      RewriteStart(rule, x, v);
    } else {
      RewriteStep(rule, x, v);
      match SiteAt(rule, x)
      case NoSite =>
        var q := UnchangedUpToFirstKey(rule, x[1..], v);
        var w := Rewrite(rule, x[1..], v);
        m := q + 1;
        assert x[1..][q..] == x[m..];
        assert x == [x[0]] + x[1..];
        if w != x[1..] {
          AgreeCons(x, x[1..], w, q + SiteAt(rule, x[m..]).key);
        }
      case Site(k, n) =>
        SiteShape(rule, x);
        assert x[0..] == x;
        var w := Rewrite(rule, x[k + n..], v);
        assert forall j: nat | j < k :: (x[..k] + v + w)[j] == x[j];
    }
  }

  lemma SiteShape(rule: Rule, u: string)
    ensures SiteAt(rule, u).Site? ==> var s := SiteAt(rule, u);
      Key(rule, u) == Some(s.key) && 0 < s.key <= s.key + s.value <= |u| && Value(rule, u[s.key..]) == Some(s.value)
  {
    hide Key, Value;
  }

  lemma SiteFrom(rule: Rule, u: string, k: nat, n: nat)
    requires Key(rule, u) == Some(k) && k <= |u| && Value(rule, u[k..]) == Some(n)
    ensures SiteAt(rule, u) == Site(k, n)
  {
    hide Key, Value;
  }

  /** Rewriting what follows a character at which nothing was found cannot make it the start of a site. */
  lemma NoNewSite(rule: Rule, u: string, v: string)
    requires WellFormed(rule) && u != "" && SiteAt(rule, u).NoSite?
    ensures SiteAt(rule, [u[0]] + Rewrite(rule, u[1..], v)).NoSite?
  {
    hide SiteAt, Rewrite, Key, Value;
    var x := u[1..];
    var w := Rewrite(rule, x, v);
    var y := [u[0]] + w;
    var m := UnchangedUpToFirstKey(rule, x, v);
    if w == x {
      assert y == u;
    } else if SiteAt(rule, y).Site? {
      SiteShape(rule, y);
      SiteShape(rule, x[m..]);
      var k, k2 := SiteAt(rule, y).key, SiteAt(rule, x[m..]).key;
      var c := 1 + m + k2;
      assert u[1 + m..] == x[m..] && Agree(u, y, c) by { AgreeCons(u, x, w, m + k2); }
      if k <= c {
        KeyAgree(rule, y, u, k);
        var a := u[k..c];
        assert u[k..] == a + u[c..] && x[m..][k2..] == u[c..];
        assert y[k..] == a + y[c..] by { SplitAgree(u, y, k, c); }
        ValueThrough(rule, a, u[c..], y[c..]);
        SiteFrom(rule, u, k, Value(rule, u[k..]).value);
      } else {
        AgreeTail(u, y, 1 + m, c);
        KeyAgree(rule, u[1 + m..], y[1 + m..], k2);
        KeysDoNotNest(rule, y, k, 1 + m, k2);
      }
    }
  }

  lemma AgreeCons(u: string, x: string, w: string, k: nat)
    requires u != "" && x == u[1..] && Agree(x, w, k)
    ensures Agree(u, [u[0]] + w, k + 1)
  {
    assert forall j: nat | j < k :: x[j] == u[j + 1];
  }

  lemma SplitAgree(u: string, y: string, k: nat, c: nat)
    requires Agree(u, y, c) && k <= c
    ensures y[k..] == u[k..c] + y[c..]
  {
  }

  lemma AgreeTail(u: string, y: string, m: nat, c: nat)
    requires Agree(u, y, c) && m <= c
    ensures Agree(u[m..], y[m..], c - m)
  {
  }

  /** A rewriting changes the values and nothing else, whatever the text. */
  lemma {:induction false} LayoutOfRewrite(rule: Rule, u: string, v: string)
    requires WellFormed(rule) && ValidValue(rule, v)
    ensures LayoutOf(rule, Rewrite(rule, u, v)) == Fill(LayoutOf(rule, u), v)
    decreases |u|
  {
    hide SiteAt, Rewrite, LayoutOf, WellFormed, ValidValue, Prepend;
    if u == "" {
      EmptyText(rule, v);
    } else {
      RewriteStep(rule, u, v);
      LayoutStep(rule, u);
      match SiteAt(rule, u)
      case NoSite =>
        var w := Rewrite(rule, u[1..], v);
        var y := [u[0]] + w;
        LayoutOfRewrite(rule, u[1..], v);
        NoNewSite(rule, u, v);
        LayoutStep(rule, y);
        FillPrepend(u[0], LayoutOf(rule, u[1..]), v);
        assert y[1..] == w;
      case Site(k, n) =>
        var w := Rewrite(rule, u[k + n..], v);
        var y := u[..k] + v + w;
        LayoutOfRewrite(rule, u[k + n..], v);
        RewrittenSite(rule, u, v, w);
        LayoutStep(rule, y);
    }
  }

  lemma FillPrepend(c: char, l: Layout, v: string)
    ensures Fill(Prepend(c, l), v) == Prepend(c, Fill(l, v))
  {
  }

  lemma EmptyText(rule: Rule, v: string)
    ensures Rewrite(rule, "", v) == "" && LayoutOf(rule, "") == Tail("")
  {
  }

  lemma RewrittenSite(rule: Rule, u: string, v: string, w: string)
    requires WellFormed(rule) && ValidValue(rule, v) && SiteAt(rule, u).Site?
    requires var s := SiteAt(rule, u); w == Rewrite(rule, u[s.key + s.value..], v)
    ensures var k := SiteAt(rule, u).key; var y := u[..k] + v + w;
      y != "" && SiteAt(rule, y) == Site(k, |v|) && y[..k] == u[..k] && y[k..k + |v|] == v && y[k + |v|..] == w
  {
    hide SiteAt, Rewrite, WellFormed, ValidValue, Key, Value;
    SiteShape(rule, u);
    var k, n := SiteAt(rule, u).key, SiteAt(rule, u).value;
    var y := u[..k] + v + w;
    RewriteStart(rule, u[k + n..], v);
    assert u[k..][n..] == u[k + n..];
    ValueReplaced(rule, u[k..], n, v, w);
    assert y[k..] == v + w;
    assert forall j: nat | j < k :: y[j] == u[j];
    KeyAgree(rule, u, y, k);
    SiteFrom(rule, y, k, |v|);
  }

  lemma {:induction false} RenderLayout(rule: Rule, u: string, v: string)
    ensures Render(LayoutOf(rule, u)) == u
    ensures Render(Fill(LayoutOf(rule, u), v)) == Rewrite(rule, u, v)
    decreases |u|
  {
    hide SiteAt, Rewrite, LayoutOf, Render, Fill;
    if u == "" {
      EmptyText(rule, v);
      RenderTail("", v);
    } else {
      RewriteStep(rule, u, v);
      LayoutStep(rule, u);
      match SiteAt(rule, u)
      case NoSite =>
        RenderLayout(rule, u[1..], v);
        FirstAndRest(u);
        RenderPrepend(u[0], LayoutOf(rule, u[1..]), v);
      case Site(k, n) =>
        SiteShape(rule, u);
        RenderLayout(rule, u[k + n..], v);
        ThreeParts(u, k, n);
        RenderEntry(u[..k], u[k..k + n], LayoutOf(rule, u[k + n..]), v);
    }
  }

  lemma FirstAndRest(u: string)
    requires u != ""
    ensures [u[0]] + u[1..] == u
  {
  }

  lemma ThreeParts(u: string, k: nat, n: nat)
    requires k + n <= |u|
    ensures u[..k] + u[k..k + n] + u[k + n..] == u
  {
  }

  lemma RenderTail(text: string, v: string)
    ensures Render(Tail(text)) == Render(Fill(Tail(text), v)) == text
  {
  }

  lemma RenderEntry(before: string, value: string, rest: Layout, v: string)
    ensures Render(Entry(before, value, rest)) == before + value + Render(rest)
    ensures Render(Fill(Entry(before, value, rest), v)) == before + v + Render(Fill(rest, v))
  {
  }

  lemma RenderPrepend(c: char, l: Layout, v: string)
    ensures Render(Prepend(c, l)) == [c] + Render(l)
    ensures Render(Fill(Prepend(c, l), v)) == [c] + Render(Fill(l, v))
  {
  }

  lemma {:induction false} FillTwice(l: Layout, v1: string, v2: string)
    ensures Fill(Fill(l, v1), v2) == Fill(l, v2)
    decreases l
  {
    if l.Entry? {
      FillTwice(l.rest, v1, v2);
    }
  }

  lemma {:induction false} FilledValues(l: Layout, v: string)
    ensures |Values(Fill(l, v))| == |Values(l)|
    ensures forall s | s in Values(Fill(l, v)) :: s == v
    ensures (forall s | s in Values(l) :: s == v) ==> Fill(l, v) == l
    decreases l
  {
    if l.Entry? {
      FilledValues(l.rest, v);
      assert l.value in Values(l) && forall s | s in Values(l.rest) :: s in Values(l);
    }
  }

  /** The last write wins. */
  lemma LastWriteWins(rule: Rule, u: string, v1: string, v2: string)
    requires WellFormed(rule) && ValidValue(rule, v1)
    ensures Rewrite(rule, Rewrite(rule, u, v1), v2) == Rewrite(rule, u, v2)
  {
    LayoutOfRewrite(rule, u, v1);
    FillTwice(LayoutOf(rule, u), v1, v2);
    RenderLayout(rule, u, v2);
    RenderLayout(rule, Rewrite(rule, u, v1), v2);
  }

  /** Reading after writing: as many values as before, and all of them the one written. */
  lemma ReadAfterWrite(rule: Rule, u: string, v: string)
    requires WellFormed(rule) && ValidValue(rule, v)
    ensures var read := Values(LayoutOf(rule, Rewrite(rule, u, v)));
      |read| == |Values(LayoutOf(rule, u))| && forall s | s in read :: s == v
  {
    LayoutOfRewrite(rule, u, v);
    FilledValues(LayoutOf(rule, u), v);
  }

  /** A write changes nothing exactly when all values are the one written. */
  lemma NothingWrittenExactly(rule: Rule, u: string, v: string)
    requires WellFormed(rule) && ValidValue(rule, v)
    ensures Rewrite(rule, u, v) == u <==> forall s | s in Values(LayoutOf(rule, u)) :: s == v
  {
    hide Rewrite, LayoutOf, Values;
    ReadAfterWrite(rule, u, v);
    var all := forall s | s in Values(LayoutOf(rule, u)) :: s == v;
    if all { WriteOwnValue(rule, u, v); }
  }

  /** Writing the value already there changes nothing, so a second run is clean. */
  lemma WriteOwnValue(rule: Rule, u: string, v: string)
    requires forall s | s in Values(LayoutOf(rule, u)) :: s == v
    ensures Rewrite(rule, u, v) == u
  {
    FilledValues(LayoutOf(rule, u), v);
    RenderLayout(rule, u, v);
  }
}
