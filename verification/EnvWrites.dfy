/** Two environment variables written in one manifest: what a write does to the other variable's entries, and a text
    on which one comment line makes both names lead to the same value. */
module EnvWrites {
  import opened Text
  import opened Rewriters
  import RewriterPatterns

  // ---------------------------------------------------------------------------------------------
  // Keys of two variables.
  // ---------------------------------------------------------------------------------------------

  /** The name of an entry ends with the first line break behind it. */
  lemma FirstBreak(u: string, m: nat, p: string, y: nat)
    requires At(u, m, p) && p != "" && p[|p| - 1] == '\n' && '\n' !in p[..|p| - 1]
    ensures m + |p| <= |u| && u[m + |p| - 1] == '\n'
    ensures m <= y < |u| && u[y] == '\n' ==> m + |p| - 1 <= y
  {
    assert forall j: nat | m <= j < m + |p| :: u[j] == u[m..m + |p|][j - m] == p[j - m];
    forall j: nat | m <= j < m + |p| - 1 ensures u[j] != '\n' {
      assert u[j] == p[..|p| - 1][j - m] && p[..|p| - 1][j - m] in p[..|p| - 1];
    }
  }

  /** Where the comment lines end there is the end of a line before, and no dash up to the quote. */
  lemma ValueLine(name: string, quote: char, u: string, k: nat)
    requires '\n' !in name && quote != '-' && Key(EnvValue(name, quote), u) == Some(k)
    ensures var p := EntryName(name); var c := CommentsEnd(u, |p|);
      At(u, 0, p) && |p| <= c <= |u| && 0 < c <= k <= |u| && u[c - 1] == '\n'
      && forall j: nat | c <= j < k :: u[j] != '-'
  {
    hide CommentsEnd, Key, At, EntryName;
    var p := EntryName(name);
    var c := CommentsEnd(u, |p|);
    EntryNameShape(name);
    EnvKeyParts(name, quote, u, k);
    FirstBreak(u, 0, p, 0);
    var i := RunEnd(Blank, u, c);
    ValueHasNoDash(quote, u, i);
    assert forall j: nat | c <= j < i :: In(Blank, u[j]) && u[j] != '-';
  }

  lemma EnvKeyParts(name: string, quote: char, u: string, k: nat)
    requires Key(EnvValue(name, quote), u) == Some(k)
    ensures var p := EntryName(name); var i := RunEnd(Blank, u, CommentsEnd(u, |p|));
      At(u, 0, p) && k == i + 8 <= |u| && At(u, i, "value: " + [quote])
  {
    hide CommentsEnd, RunEnd;
  }

  lemma ValueHasNoDash(quote: char, u: string, i: nat)
    requires At(u, i, "value: " + [quote]) && quote != '-'
    ensures i + 8 <= |u| && forall j: nat | i <= j < i + 8 :: u[j] != '-'
  {
    var w := "value: " + [quote];
    assert '-' !in w;
    assert forall j: nat | i <= j < i + 8 :: u[j] == u[i..i + 8][j - i] && w[j - i] in w;
  }

  /** An entry that starts inside the key of another one leads to the same value. */
  lemma SameEnd(outer: string, q1: char, inner: string, q2: char, u: string, k: nat, m: nat, k2: nat)
    requires '\n' !in outer && '\n' !in inner && q1 != '-' && q2 != '-'
    requires Key(EnvValue(outer, q1), u) == Some(k) && 0 < m < k <= |u| && Key(EnvValue(inner, q2), u[m..]) == Some(k2)
    ensures m + k2 == k
  {
    hide CommentsEnd, RunEnd, Key, At, EntryName;
    var p, r := EntryName(outer), EntryName(inner);
    var c := CommentsEnd(u, |p|);
    assert u[0..] == u;
    EnvKeyShape(outer, q1, u, 0);
    EnvKeyShape(inner, q2, u, m);
    ValueLine(outer, q1, u, k);
    EntryNameShape(outer);
    EntryNameShape(inner);
    FirstBreak(u, 0, p, 0);
    AtFirst(u, m, r);
    EntryStart(inner);
    assert m < c;
    FirstBreak(u, m, r, c - 1);
    FirstBreak(u, m, r, |p| - 1);
    var j := m + |r|;
    assert j <= c;
    BreakAfterName(u, p, m, r);
    if j > |p| {
      CommentsFromInside(u, |p|, j - 1);
    }
    EntryShift(u, m, r);
  }

  lemma EntryStart(name: string)
    ensures EntryName(name) != "" && EntryName(name)[0] == '-'
  {
  }

  /** An entry name that starts after another one's start does not end before it. */
  lemma BreakAfterName(u: string, p: string, m: nat, r: string)
    requires At(u, 0, p) && At(u, m, r) && 0 < m
    requires p != "" && p[|p| - 1] == '\n' && '\n' !in p[..|p| - 1] && r != "" && r[|r| - 1] == '\n'
    ensures |p| <= m + |r|
  {
    var y := m + |r| - 1;
    assert u[y] == u[m..m + |r|][|r| - 1];
    forall j: nat | j < |p| - 1 ensures u[j] != '\n' {
      assert u[j] == u[0..|p|][j] == p[..|p| - 1][j] && p[..|p| - 1][j] in p[..|p| - 1];
    }
  }

  // ---------------------------------------------------------------------------------------------
  // The two writes, step by step.
  // ---------------------------------------------------------------------------------------------

  /** No key of `r` starts in the first `n` characters. */
  ghost predicate NoKeyIn(r: Rule, u: string, n: nat) {
    n <= |u| && forall j: nat | j < n :: Key(r, u[j..]).None?
  }

  /** Two variables of a manifest, whose quotes do not occur in each other's names. */
  ghost predicate Two(a: Rule, b: Rule) {
    && a.EnvValue? && b.EnvValue? && WellFormed(a) && WellFormed(b) && a.name != b.name
    && a.quote !in EntryName(b.name) && b.quote !in EntryName(a.name)
  }

  /** A value that stays on its line. */
  ghost predicate Line(r: Rule, v: string) { ValidValue(r, v) && '\n' !in v }

  lemma NoKeyTail(r: Rule, u: string, n: nat)
    requires NoKeyIn(r, u, n) && n > 0
    ensures u != "" && Key(r, u).None? && NoKeyIn(r, u[1..], n - 1)
  {
    hide Key;
    assert u[0..] == u;
    forall j: nat | j < n - 1 ensures Key(r, u[1..][j..]).None? { assert u[1..][j..] == u[j + 1..]; }
  }

  lemma {:induction false} CopyPrefix(r: Rule, u: string, n: nat, v: string)
    requires n <= |u| && NoKeyIn(r, u, n)
    ensures Rewrite(r, u, v) == u[..n] + Rewrite(r, u[n..], v)
    decreases n
  {
    hide Key, SiteAt, Rewrite, NoKeyIn;
    if n == 0 {
      assert u[0..] == u;
    } else {
      NoKeyTail(r, u, n);
      NoKeyNoSite(r, u);
      RewriteStep(r, u, v);
      CopyPrefix(r, u[1..], n - 1, v);
      CutFirst(u, n);
    }
  }

  lemma CutFirst(u: string, n: nat)
    requires 0 < n <= |u|
    ensures u[..n] == [u[0]] + u[1..][..n - 1] && u[1..][n - 1..] == u[n..]
  {
  }

  lemma NoKeyNoSite(r: Rule, u: string)
    ensures Key(r, u).None? ==> SiteAt(r, u).NoSite?
  {
    hide Key;
  }

  /** Two entries that start at the same place have the same name. */
  lemma SameStartSameName(n1: string, n2: string, u: string)
    requires '\n' !in n1 && '\n' !in n2 && At(u, 0, EntryName(n1)) && At(u, 0, EntryName(n2))
    ensures n1 == n2
  {
    var p, r := EntryName(n1), EntryName(n2);
    EntryNameShape(n1);
    EntryNameShape(n2);
    FirstBreak(u, 0, p, |r| - 1);
    FirstBreak(u, 0, r, |p| - 1);
    assert p == u[0..|p|] == u[0..|r|] == r;
    assert p[8..|p| - 1] == n1 && r[8..|r| - 1] == n2;
  }

  lemma KeyStartsWithName(r: Rule, u: string)
    requires r.EnvValue? && Key(r, u).Some?
    ensures At(u, 0, EntryName(r.name))
  {
  }

  /** After `a` is written at the front, no key of `b` starts before what follows the value. */
  lemma NoKeyInWritten(a: Rule, v: string, b: Rule, u: string, k: nat, n: nat, rest: string, j: nat)
    requires Two(a, b) && Line(a, v) && SiteAt(a, u) == Site(k, n) && NoKeyIn(b, u, k)
    requires rest != "" && rest[0] == a.quote && j < k + |v|
    ensures Key(b, (u[..k] + v + rest)[j..]).None?
  {
    hide Key, SiteAt, Value, EntryName, ValidValue;
    var y := u[..k] + v + rest;
    SiteShape(a, u);
    assert Agree(u, y, k);
    KeyAgree(a, u, y, k);
    if Key(b, y[j..]).Some? {
      var k2 := Key(b, y[j..]).value;
      if j < k {
        assert Key(b, u[j..]).None?;
        if j == 0 {
          assert y[0..] == y;
          KeyStartsWithName(a, y);
          KeyStartsWithName(b, y);
          SameStartSameName(a.name, b.name, y);
        } else {
          SameEnd(a.name, a.quote, b.name, b.quote, y, k, j, k2);
          AgreeTail(y, u, j, k);
          KeyAgree(b, y[j..], u[j..], k2);
        }
      } else {
        KeyStartsWithName(b, y[j..]);
        AtShift(y, j, 0, EntryName(b.name));
        EntryNameShape(b.name);
        NameReachesQuote(u[..k], v, rest, j, EntryName(b.name));
      }
    }
  }

  /** An entry name that starts in a value without line breaks reaches over the closing quote. */
  lemma NameReachesQuote(p: string, v: string, rest: string, j: nat, w: string)
    requires '\n' !in v && rest != "" && |p| <= j < |p| + |v| && At(p + v + rest, j, w)
    requires w != "" && w[|w| - 1] == '\n'
    ensures rest[0] in w
  {
    var y, e := p + v + rest, |p| + |v|;
    assert forall i: nat | |p| <= i < e :: y[i] == v[i - |p|] && v[i - |p|] in v;
    assert y[j + |w| - 1] == y[j..j + |w|][|w| - 1];
    assert y[e] == rest[0];
    assert w[e - j] == y[j..j + |w|][e - j] == y[e];
  }

  /** Writing `a` behind a character at which no key starts does not make it the start of a key of `b`. */
  lemma NoNewKey(a: Rule, v: string, b: Rule, u: string)
    requires Two(a, b) && u != "" && Key(a, u).None? && Key(b, u).None?
    ensures Key(b, [u[0]] + Rewrite(a, u[1..], v)).None?
  {
    hide SiteAt, Rewrite, Key, Value, EntryName;
    var x := u[1..];
    var w := Rewrite(a, x, v);
    var y := [u[0]] + w;
    var m := UnchangedUpToFirstKey(a, x, v);
    if w == x {
      assert y == u;
    } else if Key(b, y).Some? {
      SiteShape(a, x[m..]);
      var k, k2 := Key(b, y).value, SiteAt(a, x[m..]).key;
      var c := 1 + m + k2;
      assert u[1 + m..] == x[m..];
      AgreeCons(u, x, w, m + k2);
      if k <= c {
        KeyAgree(b, y, u, k);
      } else {
        AgreeTail(u, y, 1 + m, c);
        KeyAgree(a, u[1 + m..], y[1 + m..], k2);
        SameEnd(b.name, b.quote, a.name, a.quote, y, k, 1 + m, k2);
      }
    }
  }

  lemma SiteQuote(r: Rule, u: string)
    requires r.EnvValue? && SiteAt(r, u).Site?
    ensures var e := SiteAt(r, u).key + SiteAt(r, u).value; e < |u| && u[e] == r.quote
  {
    hide Key;
    var s := SiteAt(r, u);
    var x := u[s.key..];
    assert x[s.value] == u[s.key + s.value];
    assert !In(Except(r.quote), x[s.value]);
  }

  lemma NeitherWritten(a: Rule, v: string, b: Rule, w: string, u: string)
    requires Two(a, b) && u != "" && Key(a, u).None? && Key(b, u).None?
    ensures Rewrite(b, Rewrite(a, u, v), w) == [u[0]] + Rewrite(b, Rewrite(a, u[1..], v), w)
  {
    hide SiteAt, Rewrite, Key, Two;
    var rest := Rewrite(a, u[1..], v);
    var y := [u[0]] + rest;
    NoKeyNoSite(a, u);
    RewriteStep(a, u, v);
    NoNewKey(a, v, b, u);
    NoKeyNoSite(b, y);
    RewriteStep(b, y, w);
    assert y[1..] == rest;
  }

  lemma FirstWritten(a: Rule, v: string, b: Rule, w: string, u: string, k: nat, n: nat)
    requires Two(a, b) && Line(a, v) && SiteAt(a, u) == Site(k, n) && NoKeyIn(b, u, k)
    ensures Rewrite(b, Rewrite(a, u, v), w) == u[..k] + v + Rewrite(b, Rewrite(a, u[k + n..], v), w)
  {
    hide SiteAt, Rewrite, Key, Value;
    var rest := Rewrite(a, u[k + n..], v);
    var y := u[..k] + v + rest;
    RewriteStep(a, u, v);
    SiteQuote(a, u);
    RewriteStart(a, u[k + n..], v);
    forall j: nat | j < k + |v| ensures Key(b, y[j..]).None? { NoKeyInWritten(a, v, b, u, k, n, rest, j); }
    CopyPrefix(b, y, k + |v|, w);
    assert y[..k + |v|] == u[..k] + v && y[k + |v|..] == rest;
  }

  // ---------------------------------------------------------------------------------------------
  // One value with two names.
  // ---------------------------------------------------------------------------------------------

  function SecondHead(n2: string, quote: char): string { EntryName(n2) + ("value: " + [quote]) }

  function SharedHead(n1: string, n2: string, quote: char): string { EntryName(n1) + "#" + SecondHead(n2, quote) }

  /** An entry of `n1` whose comment line reads like the start of an entry of `n2`. */
  function SharedText(n1: string, n2: string, quote: char, v: string): string {
    SharedHead(n1, n2, quote) + v + [quote]
  }

  ghost predicate PlainName(n: string) { '-' !in n && '\n' !in n }

  /** The line with the value: no comment, and the value between the quotes. */
  lemma ValueLineReads(quote: char, v: string, u: string, i: nat)
    requires LeftAt(u, i, "value: " + [quote] + (v + [quote]))
    ensures CommentsEnd(u, i) == i && RunEnd(Blank, u, i) == i && At(u, i, "value: " + [quote])
    ensures i + 8 <= |u| && u[i + 8..] == v + [quote]
  {
    var x := u[i..];
    assert x[0] == u[i] == 'v';
    RunIsEmpty(Blank, u, i);
    assert u[i..i + 8] == x[..8] && u[i + 8..] == x[8..];
  }

  lemma ValueIs(quote: char, v: string, name: string)
    requires All(Except(quote), v)
    ensures Value(EnvValue(name, quote), v + [quote]) == Some(|v|)
  {
    var x := v + [quote];
    assert forall j: nat | j < |v| :: x[j] == v[j];
    RunEndIs(Except(quote), x, 0, |v|);
  }

  lemma KeyFrom(name: string, quote: char, u: string, i: nat)
    requires At(u, 0, EntryName(name)) && At(u, i, "value: " + [quote])
    requires RunEnd(Blank, u, CommentsEnd(u, |EntryName(name)|)) == i
    ensures Key(EnvValue(name, quote), u) == Some(i + 8)
  {
    hide CommentsEnd, RunEnd;
  }

  /** An entry whose comments end at the line with the value. */
  lemma EntryRead(name: string, quote: char, v: string, u: string, i: nat)
    requires At(u, 0, EntryName(name)) && CommentsEnd(u, |EntryName(name)|) == CommentsEnd(u, i)
    requires LeftAt(u, i, "value: " + [quote] + (v + [quote])) && All(Except(quote), v)
    ensures SiteAt(EnvValue(name, quote), u) == Site(i + 8, |v|)
  {
    ValueLineReads(quote, v, u, i);
    ValueIs(quote, v, name);
    hide *;
    KeyFrom(name, quote, u, i);
    SiteFrom(EnvValue(name, quote), u, i + 8, |v|);
  }

  lemma HeadLeaves(p: string, quote: char, v: string)
    ensures var u := p + ("value: " + [quote]) + v + [quote];
      LeftAt(u, |p|, "value: " + [quote] + (v + [quote])) && (p != "" ==> At(u, 0, p))
  {
    var u := p + ("value: " + [quote]) + v + [quote];
    assert u[|p|..] == "value: " + [quote] + (v + [quote]);
  }

  lemma SecondEntry(n2: string, quote: char, v: string)
    requires All(Except(quote), v)
    ensures SiteAt(EnvValue(n2, quote), SecondHead(n2, quote) + v + [quote]) == Site(|SecondHead(n2, quote)|, |v|)
  {
    EntryStart(n2);
    HeadLeaves(EntryName(n2), quote, v);
    hide EntryName, CommentsEnd, LeftAt, SiteAt;
    EntryRead(n2, quote, v, SecondHead(n2, quote) + v + [quote], |EntryName(n2)|);
  }

  /** A comment line is passed over. */
  lemma CommentRead(body: string, u: string, i: nat, rest: string)
    requires '\n' !in body && LeftAt(u, i, ("#" + body) + ("\n" + rest))
    ensures var j := i + |body| + 2;
      LeftAt(u, j, rest) && CommentsEnd(u, i) == CommentsEnd(u, j)
  {
    hide CommentsEnd, RunEnd, LeftAt;
    var w := "#" + body;
    CommentBody(body);
    StartsAt(u, i, "#" + body, "\n" + rest);
    RunThen(Except('\n'), u, i, w, "\n" + rest);
    StartsAt(u, i + |w|, "\n", rest);
    RunIsEmpty(Blank, u, i);
    assert IsComment(u, i);
    CommentsStep(u, i);
  }

  lemma CommentBody(body: string)
    requires '\n' !in body
    ensures All(Except('\n'), "#" + body)
  {
    assert forall j: nat | j < |body| :: body[j] in body;
  }

  /** Past the piece `w`, `x` is left. */
  lemma StartsAt(u: string, i: nat, w: string, x: string)
    requires LeftAt(u, i, w + x) && w != ""
    ensures i + |w| <= |u| && u[i] == w[0] && LeftAt(u, i + |w|, x)
  {
    assert u[i..][0] == u[i];
    assert u[i..][|w|..] == u[i + |w|..];
  }

  /** The text, piece by piece. */
  lemma SharedPieces(p: string, body: string, line: string, v: string, q: string)
    ensures var u := p + "#" + ((body + "\n") + line) + v + q;
      LeftAt(u, |p|, ("#" + body) + ("\n" + (line + (v + q)))) && (p != "" ==> At(u, 0, p))
      && |p + "#" + ((body + "\n") + line)| == |p| + |body| + 2 + |line|
  {
    var u := p + "#" + ((body + "\n") + line) + v + q;
    assert u[|p|..] == ("#" + body) + ("\n" + (line + (v + q)));
  }

  lemma FirstEntry(n1: string, n2: string, quote: char, v: string)
    requires '\n' !in n2 && All(Except(quote), v)
    ensures SiteAt(EnvValue(n1, quote), SharedText(n1, n2, quote, v)) == Site(|SharedHead(n1, n2, quote)|, |v|)
  {
    EntryStart(n1);
    NameBody(n2);
    hide *;
    var u, body, line := SharedText(n1, n2, quote, v), "- name: " + n2, "value: " + [quote];
    SharedIs(n1, n2, quote, v);
    SharedPieces(EntryName(n1), body, line, v, [quote]);
    EntryAfterComment(n1, body, quote, v, u);
  }

  lemma EntryAfterComment(n1: string, body: string, quote: char, v: string, u: string)
    requires At(u, 0, EntryName(n1)) && '\n' !in body && All(Except(quote), v)
    requires LeftAt(u, |EntryName(n1)|, ("#" + body) + ("\n" + ("value: " + [quote] + (v + [quote]))))
    ensures SiteAt(EnvValue(n1, quote), u) == Site(|EntryName(n1)| + |body| + 10, |v|)
  {
    hide *;
    CommentRead(body, u, |EntryName(n1)|, "value: " + [quote] + (v + [quote]));
    EntryRead(n1, quote, v, u, |EntryName(n1)| + |body| + 2);
  }

  lemma NameBody(n: string)
    requires '\n' !in n
    ensures '\n' !in "- name: " + n
  {
    assert '\n' !in "- name: ";
  }

  lemma SharedIs(n1: string, n2: string, quote: char, v: string)
    ensures SharedHead(n1, n2, quote) == EntryName(n1) + "#" + (("- name: " + n2) + "\n" + ("value: " + [quote]))
    ensures SharedText(n1, n2, quote, v)
         == EntryName(n1) + "#" + (("- name: " + n2) + "\n" + ("value: " + [quote])) + v + [quote]
  {
  }

  lemma QuoteStays(r: Rule, quote: char, v: string)
    requires r.EnvValue? && quote != '-'
    ensures Rewrite(r, [quote], v) == [quote]
  {
    AtFirst([quote], 0, EntryName(r.name));
    EntryStart(r.name);
    RewriteStep(r, [quote], v);
    EmptyText(r, v);
    NoKeyNoSite(r, [quote]);
  }

  lemma OneSiteWritten(r: Rule, head: string, v: string, quote: char, w: string)
    requires r.EnvValue? && quote != '-' && SiteAt(r, head + v + [quote]) == Site(|head|, |v|)
    ensures Rewrite(r, head + v + [quote], w) == head + w + [quote]
  {
    hide SiteAt, Rewrite;
    var u := head + v + [quote];
    RewriteStep(r, u, w);
    QuoteStays(r, quote, w);
    assert u[..|head|] == head && u[|head| + |v|..] == [quote];
  }

  /** Writing either variable replaces the one value. */
  lemma FirstWrites(n1: string, n2: string, quote: char, v: string, v1: string)
    requires '\n' !in n2 && quote != '-' && All(Except(quote), v)
    ensures Rewrite(EnvValue(n1, quote), SharedText(n1, n2, quote, v), v1) == SharedText(n1, n2, quote, v1)
  {
    hide SiteAt, Rewrite, SharedHead;
    FirstEntry(n1, n2, quote, v);
    OneSiteWritten(EnvValue(n1, quote), SharedHead(n1, n2, quote), v, quote, v1);
  }

  lemma NameHasOneDash(n1: string, j: nat)
    requires '-' !in n1 && 0 < j < |EntryName(n1)|
    ensures EntryName(n1)[j] != '-'
  {
    if j >= 8 && j - 8 < |n1| { assert EntryName(n1)[j] == n1[j - 8] && n1[j - 8] in n1; }
  }

  /** No entry of the second variable starts before the comment's own. */
  lemma NoEarlierEntry(n1: string, n2: string, quote: char, x: string)
    requires PlainName(n1) && PlainName(n2) && n1 != n2
    ensures NoKeyIn(EnvValue(n2, quote), EntryName(n1) + "#" + x, |EntryName(n1)| + 1)
  {
    var p, b := EntryName(n1), EnvValue(n2, quote);
    var u := p + "#" + x;
    hide Key, EntryName;
    assert u[0..|p|] == p;
    forall j: nat | j < |p| + 1 ensures Key(b, u[j..]).None? {
      NoEntryAt(n1, n2, quote, u, j);
    }
  }

  lemma NoEntryAt(n1: string, n2: string, quote: char, u: string, j: nat)
    requires PlainName(n1) && PlainName(n2) && n1 != n2
    requires At(u, 0, EntryName(n1)) && j <= |EntryName(n1)| < |u| && u[|EntryName(n1)|] == '#'
    ensures Key(EnvValue(n2, quote), u[j..]).None?
  {
    var b := EnvValue(n2, quote);
    hide Key, EntryName;
    EntryStart(n2);
    AtFirst(u[j..], 0, EntryName(n2));
    assert u[j..][0] == u[j];
    assert forall i: nat | i < |EntryName(n1)| :: u[i] == u[0..|EntryName(n1)|][i];
    if 0 < j < |EntryName(n1)| { NameHasOneDash(n1, j); }
    if Key(b, u[j..]).Some? {
      KeyStartsWithName(b, u[j..]);
      assert u[0..] == u;
      if At(u, 0, EntryName(n2)) { SameStartSameName(n1, n2, u); }
    }
  }

  lemma SecondWrites(n1: string, n2: string, quote: char, v: string, v2: string)
    requires PlainName(n1) && PlainName(n2) && n1 != n2 && quote != '-' && All(Except(quote), v)
    ensures Rewrite(EnvValue(n2, quote), SharedText(n1, n2, quote, v), v2) == SharedText(n1, n2, quote, v2)
  {
    var b, p, head := EnvValue(n2, quote), EntryName(n1) + "#", SecondHead(n2, quote);
    NoEarlierEntry(n1, n2, quote, head + v + [quote]);
    SecondEntry(n2, quote, v);
    hide SiteAt, Rewrite, NoKeyIn, SecondHead, EntryName;
    OneSiteWritten(b, head, v, quote, v2);
    PrefixCopied(b, p, head + v + [quote], v2);
    Regrouped(p, head, v, [quote]);
    Regrouped(p, head, v2, [quote]);
  }

  lemma Regrouped(p: string, head: string, v: string, q: string)
    ensures p + (head + v + q) == p + head + v + q
  {
  }

  lemma PrefixCopied(r: Rule, p: string, x: string, v: string)
    requires NoKeyIn(r, p + x, |p|)
    ensures Rewrite(r, p + x, v) == p + Rewrite(r, x, v)
  {
    hide NoKeyIn, Rewrite;
    CopyPrefix(r, p + x, |p|, v);
    assert (p + x)[..|p|] == p && (p + x)[|p|..] == x;
  }

  /** Where a comment line of one entry reads like the start of another one, both variables own the same value, and the
      later write wins. */
  lemma SharedValueExactly(n1: string, n2: string, quote: char, v: string, v1: string, v2: string)
    requires PlainName(n1) && PlainName(n2) && n1 != n2 && quote != '-'
    requires All(Except(quote), v) && All(Except(quote), v1) && All(Except(quote), v2)
    ensures var a, b, u := EnvValue(n1, quote), EnvValue(n2, quote), SharedText(n1, n2, quote, v);
      Rewrite(b, Rewrite(a, u, v1), v2) == Rewrite(a, Rewrite(b, u, v2), v1) <==> v1 == v2
  {
    FirstWrites(n1, n2, quote, v, v1);
    FirstWrites(n1, n2, quote, v2, v1);
    SecondWrites(n1, n2, quote, v, v2);
    SecondWrites(n1, n2, quote, v1, v2);
    hide *;
    ValueOfShared(n1, n2, quote, v1);
    ValueOfShared(n1, n2, quote, v2);
  }

  lemma ValueOfShared(n1: string, n2: string, quote: char, v: string)
    ensures var u := SharedText(n1, n2, quote, v); var k := |SharedHead(n1, n2, quote)|; k < |u| && u[k..|u| - 1] == v
  {
    hide SharedHead;
  }
}
