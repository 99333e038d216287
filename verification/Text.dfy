/** Characters, character runs and the small string functions shared by every model of a text rewriter. */
module Text {

  datatype Option<+T> = None | Some(value: T)

  // Python's \w, \s and \d accept characters outside ASCII according to Unicode tables.  The tables are
  // left arbitrary: every theorem of this project holds whatever they contain, except that the
  // characters of a table are not ASCII and that every digit is a word character.
  const NON_ASCII_WORD: set<char>
  const NON_ASCII_SPACE: set<char>
  const NON_ASCII_DIGIT: set<char>

  predicate IsAscii(c: char) { c as int < 128 }

  predicate IsLower(c: char) { 'a' <= c <= 'z' }

  predicate IsUpper(c: char) { 'A' <= c <= 'Z' }

  predicate IsLetter(c: char) { IsLower(c) || IsUpper(c) }

  predicate IsAsciiDigit(c: char) { '0' <= c <= '9' }

  /** `\d` */
  predicate IsDigit(c: char) { IsAsciiDigit(c) || (!IsAscii(c) && c in NON_ASCII_DIGIT) }

  /** `\w` */
  predicate IsWord(c: char) {
    IsLetter(c) || IsDigit(c) || c == '_' || (!IsAscii(c) && c in NON_ASCII_WORD)
  }

  /** `\s`: the ASCII white space of Python's str patterns includes the four information separators. */
  predicate IsSpace(c: char) {
    c == ' ' || 9 <= c as int <= 13 || 28 <= c as int <= 31 || (!IsAscii(c) && c in NON_ASCII_SPACE && !IsWord(c))
  }

  /** The character classes the repository's patterns use, each named after what it accepts. */
  datatype Class =
    | Any
    | Letter            // [a-zA-Z]
    | Digit             // \d
    | Space             // \s
    | Blank             // [ \t]
    | HostChar          // [\w.-]
    | DomainChar        // [a-zA-Z0-9.-]
    | RealmChar         // [a-zA-Z0-9_-]
    | AlnumChar         // [a-zA-Z0-9]
    | SlugChar          // [a-z0-9-], ignoring case
    | NotSpace          // [^\s]
    | NotSpaceOrQuote   // [^\s"']
    | NotLineOrBrace    // [^\n{]
    | Except(x: char)   // [^x]
    | Only(x: char)     // a single character

  predicate In(k: Class, c: char) {
    match k
    case Any => true
    case Letter => IsLetter(c)
    case Digit => IsDigit(c)
    case Space => IsSpace(c)
    case Blank => c == ' ' || c == '\t'
    case HostChar => IsWord(c) || c == '.' || c == '-'
    case DomainChar => IsLetter(c) || IsAsciiDigit(c) || c == '.' || c == '-'
    case RealmChar => IsLetter(c) || IsAsciiDigit(c) || c == '_' || c == '-'
    case AlnumChar => IsLetter(c) || IsAsciiDigit(c)
    case SlugChar => IsSlug(c)
    case NotSpace => !IsSpace(c)
    case NotSpaceOrQuote => !IsSpace(c) && c != '\"' && c != '\''
    case NotLineOrBrace => c != '\n' && c != '{'
    case Except(x) => c != x
    case Only(x) => c == x
  }

  /** `[a-z0-9-]` under IGNORECASE: Python also lets four non-ASCII letters through, the dotted capital I,
      the dotless small i, the long s and the Kelvin sign. */
  predicate IsSlug(c: char) {
    IsLetter(c) || IsAsciiDigit(c) || c == '-'
    || c == '\U{0130}' || c == '\U{0131}' || c == '\U{017F}' || c == '\U{212A}'
  }

  predicate All(k: Class, s: string) { forall i | 0 <= i < |s| :: In(k, s[i]) }

  /** The end of the maximal run of `k` characters of `t` that starts at `i`. */
  function RunEnd(k: Class, t: string, i: nat): (e: nat)
    ensures i <= e && (i <= |t| ==> e <= |t|)
    ensures forall j: nat | i <= j < e :: j < |t| && In(k, t[j])
    ensures e < |t| ==> !In(k, t[e])
    decreases if i < |t| then |t| - i else 0
  {
    if i < |t| && In(k, t[i]) then RunEnd(k, t, i + 1) else i
  }

  lemma {:induction false} RunEndIs(k: Class, t: string, i: nat, e: nat)
    requires i <= e <= |t|
    requires forall j: nat | i <= j < e :: In(k, t[j])
    requires e < |t| ==> !In(k, t[e])
    ensures RunEnd(k, t, i) == e
    decreases |t| - i
  {
    if i < e {
      RunEndIs(k, t, i + 1, e);
    }
  }

  lemma RunNonEmpty(k: Class, t: string, i: nat)
    ensures RunEnd(k, t, i) > i <==> i < |t| && In(k, t[i])
  {
  }

  /** `t.startswith(w, i)` */
  predicate At(t: string, i: nat, w: string) {
    i + |w| <= |t| && t[i..i + |w|] == w
  }

  lemma Assoc(a: string, b: string, c: string)
    ensures a + (b + c) == (a + b) + c
  {
  }

  lemma AtConcat(t: string, i: nat, v: string, w: string)
    ensures At(t, i, v + w) <==> At(t, i, v) && At(t, i + |v|, w)
  {
    if i + |v| + |w| <= |t| {
      var u := t[i..i + |v| + |w|];
      assert u[..|v|] == t[i..i + |v|] && u[|v|..] == t[i + |v|..i + |v| + |w|];
      assert u == u[..|v|] + u[|v|..];
      assert (v + w)[..|v|] == v && (v + w)[|v|..] == w;
    }
  }

  lemma RunEndShift(c: Class, u: string, m: nat, i: nat)
    requires m + i <= |u|
    ensures RunEnd(c, u[m..], i) + m == RunEnd(c, u, m + i)
  {
    var e := RunEnd(c, u[m..], i);
    assert forall j: nat | m + i <= j < m + e :: u[j] == u[m..][j - m];
    RunEndIs(c, u, m + i, m + e);
  }

  lemma AtShift(t: string, i: nat, j: nat, w: string)
    requires i <= |t|
    ensures At(t[i..], j, w) <==> At(t, i + j, w)
  {
    if i + j + |w| <= |t| {
      assert t[i..][j..j + |w|] == t[i + j..i + j + |w|];
    }
  }

  lemma AtBound(t: string, i: nat, w: string)
    requires At(t, i, w)
    ensures i + |w| <= |t|
  {
  }

  lemma AtFirst(t: string, i: nat, w: string)
    requires w != ""
    ensures At(t, i, w) ==> i < |t| && t[i] == w[0]
  {
    if At(t, i, w) { assert t[i] == t[i..i + |w|][0]; }
  }

  lemma CharAt(t: string, i: nat, c: char)
    ensures At(t, i, [c]) <==> i < |t| && t[i] == c
  {
    if i < |t| { assert t[i..i + 1] == [t[i]]; }
  }

  lemma RunEndStep(k: Class, t: string, i: nat)
    requires RunEnd(k, t, i) > i
    ensures RunEnd(k, t, i + 1) == RunEnd(k, t, i)
  {
  }

  lemma RunIsEmpty(k: Class, t: string, i: nat)
    requires i < |t| && !In(k, t[i])
    ensures RunEnd(k, t, i) == i
  {
  }

  /** What is left of `t` from `i` on is `x`. */
  ghost predicate LeftAt(t: string, i: nat, x: string) { i <= |t| && t[i..] == x }

  lemma AllLeft(t: string)
    ensures LeftAt(t, 0, t)
  {
  }

  /** Reading a word leaves what stands behind it. */
  lemma Next(t: string, i: nat, w: string, x: string)
    requires LeftAt(t, i, w + x)
    ensures LeftAt(t, i + |w|, x) && i + |w| <= |t| && t[i..i + |w|] == w
    ensures x != "" ==> i + |w| < |t| && t[i + |w|] == x[0]
  {
    var u := t[i..];
    assert t[i + |w|..] == u[|w|..] && t[i..i + |w|] == u[..|w|];
  }

  lemma RunThen(k: Class, t: string, i: nat, w: string, x: string)
    requires LeftAt(t, i, w + x) && All(k, w) && x != "" && !In(k, x[0])
    ensures RunEnd(k, t, i) == i + |w| && LeftAt(t, i + |w|, x)
  {
    var u := t[i..];
    assert forall j: nat | j < |u| :: t[i + j] == u[j];
    assert forall j: nat | j < |w| :: u[j] == w[j];
    assert u[|w|] == x[0];
    RunEndIs(k, t, i, i + |w|);
  }
}
