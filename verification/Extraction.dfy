/** `extract_meeting_metadata_from_key` and `merge_with_s3_tags`: printing a recording's name and reading it
    again gives back the meeting. */
module Extraction {
  import opened Text
  import opened Regex
  import opened Words
  import opened Metadata

  datatype Meeting = Meeting(title: string, date: Option<string>, participants: seq<string>)

  /** `\.[a-zA-Z0-9]+$` */
  const EXTENSION: Regex := Word(".", Some1(AlnumChar, TextEnd))

  /** `key.split("/")[-1]` */
  function FileName(key: string): string { var p := Split('/', key); p[|p| - 1] }

  function WithoutExtension(name: string): string { Sub(EXTENSION, [], name, 0) }

  /** `str.upper` of one slug character. */
  function Upper(c: char): char {
    if IsLower(c) then (c as int - 'a' as int + 'A' as int) as char
    else if c == '\U{0131}' then 'I'
    else if c == '\U{017F}' then 'S'
    else c
  }

  function Capitalised(w: string): string { if w == "" then "" else [Upper(w[0])] + w[1..] }

  function CapitalisedAll(p: seq<string>): (q: seq<string>)
    ensures |q| == |p| && forall i: nat | i < |p| :: q[i] == Capitalised(p[i])
  {
    if p == [] then [] else [Capitalised(p[0])] + CapitalisedAll(p[1..])
  }

  /** `_slug_to_title` */
  function SlugToTitle(slug: string): string { Join(' ', CapitalisedAll(NonEmpty(Split('-', slug)))) }

  function Titles(slugs: seq<string>): (q: seq<string>)
    ensures |q| == |slugs| && forall i: nat | i < |slugs| :: q[i] == SlugToTitle(slugs[i])
  {
    if slugs == [] then [] else [SlugToTitle(slugs[0])] + Titles(slugs[1..])
  }

  /** `re.sub(r"[-_]", " ", s)` */
  function Blanked(s: string): string {
    if s == "" then "" else [if s[0] == '-' || s[0] == '_' then ' ' else s[0]] + Blanked(s[1..])
  }

  function StripLeft(s: string): string { if s != "" && IsSpace(s[0]) then StripLeft(s[1..]) else s }

  function StripRight(s: string): string { if s != "" && IsSpace(s[|s| - 1]) then StripRight(s[..|s| - 1]) else s }

  function Stripped(s: string): string { StripRight(StripLeft(s)) }

  const UNTITLED := "Meeting recording"

  function Extract(key: string): Meeting {
    var t := WithoutExtension(FileName(key));
    match MatchAt(NAME, t, 0)
    case None => Meeting(if Stripped(Blanked(t)) == "" then UNTITLED else Stripped(Blanked(t)), None, [])
    case Some(m) =>
      Meeting(SlugToTitle(GroupOf(t, m, 1)), Some(GroupOf(t, m, 0)), Titles(Split('-', GroupOf(t, m, 2))))
  }

  function StrippedAll(p: seq<string>): seq<string> {
    if p == [] then [] else [Stripped(p[0])] + StrippedAll(p[1..])
  }

  function MergeTags(base: Meeting, tags: map<string, string>): Meeting {
    Meeting(
      if "meeting-title" in tags then tags["meeting-title"] else base.title,
      if "meeting-date" in tags then Some(tags["meeting-date"]) else base.date,
      if "meeting-participants" in tags then StrippedAll(Split(',', tags["meeting-participants"]))
      else base.participants)
  }

  // ---------------------------------------------------------------------------------------------
  // File names and extensions.
  // ---------------------------------------------------------------------------------------------

  lemma {:induction false} LastPiece(x: char, dir: string, name: string)
    requires x !in name && (dir == "" || dir[|dir| - 1] == x)
    ensures var p := Split(x, dir + name); p[|p| - 1] == name
    decreases |dir|
  {
    if dir == "" {
      assert dir + name == name;
      SplitOfWord(x, name);
    } else {
      var u := dir + name;
      assert u[0] == dir[0] && u[1..] == dir[1..] + name;
      if |dir| == 1 {
        assert dir[1..] == "";
        LastPiece(x, "", name);
      } else {
        LastPiece(x, dir[1..], name);
        if |Split(x, u[1..])| == 1 { NoSeparator(x, u[1..], |dir| - 2); }
      }
    }
  }

  lemma {:induction false} NoSeparator(x: char, s: string, i: nat)
    requires i < |s| && s[i] == x
    ensures |Split(x, s)| > 1
    decreases i
  {
    if i > 0 { NoSeparator(x, s[1..], i - 1); }
  }

  lemma NoDotNoExtension(t: string, i: nat)
    requires i < |t| && t[i] != '.'
    ensures MatchAt(EXTENSION, t, i) == None
  {
    hide Ends;
    WordEnds(".", Some1(AlnumChar, TextEnd), t, State(i, []));
    CharAt(t, i, '.');
  }

  ghost predicate Extension(ext: string) { ext != "" && All(AlnumChar, ext) }

  lemma ExtensionMatches(name: string, ext: string)
    requires Extension(ext)
    ensures var t := name + "." + ext; MatchAt(EXTENSION, t, |name|) == Some(State(|t|, []))
  {
    hide Ends;
    var t := name + "." + ext;
    var n := |name| + 1;
    assert forall i: nat | n <= i < |t| :: t[i] == ext[i - n];
    CharAt(t, |name|, '.');
    WordEnds(".", Some1(AlnumChar, TextEnd), t, State(|name|, []));
    OneEnds(AlnumChar, Many(AlnumChar, TextEnd), t, State(n, []));
    RunEndIs(AlnumChar, t, n + 1, |t|);
    ManyFirst(AlnumChar, TextEnd, t, State(n + 1, []));
    AssertionHolds(TextEnd, t, State(|t|, []));
  }

  /** The extension is dropped, and nothing else of a name without further dots. */
  lemma {:induction false} ExtensionDropped(name: string, ext: string, i: nat)
    requires '.' !in name && Extension(ext) && i <= |name|
    ensures Sub(EXTENSION, [], name + "." + ext, i) == name[i..]
    decreases |name| - i
  {
    hide Ends, Sub, MatchAt;
    var t := name + "." + ext;
    SubNext(EXTENSION, [], t, i);
    if i < |name| {
      assert t[i] == name[i] && name[i] in name;
      NoDotNoExtension(t, i);
      ExtensionDropped(name, ext, i + 1);
      assert name[i..] == [name[i]] + name[i + 1..];
    } else {
      ExtensionMatches(name, ext);
      SubAtEnd(t);
    }
  }

  lemma SubAtEnd(t: string)
    ensures Sub(EXTENSION, [], t, |t|) == "" && forall m :: Expand(t, m, []) == ""
  {
    hide Ends;
    WordEnds(".", Some1(AlnumChar, TextEnd), t, State(|t|, []));
    CharAt(t, |t|, '.');
  }

  // ---------------------------------------------------------------------------------------------
  // Round trip.
  // ---------------------------------------------------------------------------------------------

  /** Words of slug characters without a hyphen. */
  ghost predicate SlugWords(p: seq<string>) {
    p != [] && forall i: nat | i < |p| :: Slug(p[i]) && '-' !in p[i]
  }

  lemma {:induction false} JoinedSlug(p: seq<string>)
    requires SlugWords(p)
    ensures Slug(Join('-', p))
    decreases |p|
  {
    assert Slug(p[0]);
    if |p| > 1 {
      assert forall i: nat | i < |p[1..]| :: p[1..][i] == p[i + 1];
      JoinedSlug(p[1..]);
      var s := Join('-', p);
      var n := |p[0]|;
      assert forall i: nat | i < n :: s[i] == p[0][i];
      assert s[n] == '-' && forall i: nat | n < i < |s| :: s[i] == Join('-', p[1..])[i - n - 1];
    }
  }

  lemma SplitSlugWords(p: seq<string>)
    requires SlugWords(p)
    ensures Split('-', Join('-', p)) == p && NonEmpty(p) == p
  {
    assert Free('-', p);
    SplitJoin('-', p);
    assert "" !in p;
    AllNonEmpty(p);
  }

  lemma OneWordTitle(w: string)
    requires w != "" && '-' !in w
    ensures SlugToTitle(w) == Capitalised(w)
  {
    SplitOfWord('-', w);
    assert NonEmpty([w]) == [w] + NonEmpty([]);
    assert CapitalisedAll([w]) == [Capitalised(w)];
  }

  lemma TitlesOfWords(p: seq<string>)
    requires SlugWords(p)
    ensures Titles(p) == CapitalisedAll(p)
  {
    forall i: nat | i < |p| ensures Titles(p)[i] == CapitalisedAll(p)[i] {
      assert Slug(p[i]);
      OneWordTitle(p[i]);
    }
  }

  lemma SlugIsPlain(s: string)
    requires All(SlugChar, s)
    ensures '.' !in s && '/' !in s
  {
  }

  lemma DateIsPlain(d: string)
    requires IsDate(d)
    ensures '.' !in d && '/' !in d
  {
    CharAt(d, 4, '-');
    CharAt(d, 7, '-');
    forall i: nat | i < 10 ensures d[i] != '.' && d[i] != '/' {
      if i != 4 && i != 7 { assert IsDigit(d[i]); }
    }
  }

  function Key(dir: string, date: string, words: seq<string>, people: seq<string>, ext: string): string {
    dir + (Print(date, Join('-', words), Join('-', people)) + "." + ext)
  }

  lemma NameOfKey(dir: string, date: string, words: seq<string>, people: seq<string>, ext: string)
    requires (dir == "" || dir[|dir| - 1] == '/') && Extension(ext)
    requires IsDate(date) && SlugWords(words) && SlugWords(people)
    ensures WithoutExtension(FileName(Key(dir, date, words, people, ext)))
         == Print(date, Join('-', words), Join('-', people))
  {
    var name := Print(date, Join('-', words), Join('-', people));
    JoinedSlug(words);
    JoinedSlug(people);
    SlugIsPlain(Join('-', words));
    SlugIsPlain(Join('-', people));
    DateIsPlain(date);
    assert '/' !in ext && '/' !in name + "." + ext;
    LastPiece('/', dir, name + "." + ext);
    ExtensionDropped(name, ext, 0);
    assert name[0..] == name;
  }

  /** Whatever the directory and the extension, a printed name reads back as the same date, the capitalised
      title and the participants in order. */
  lemma PrintedKeyReadsBack(dir: string, date: string, words: seq<string>, people: seq<string>, ext: string)
    requires (dir == "" || dir[|dir| - 1] == '/') && Extension(ext)
    requires IsDate(date) && SlugWords(words) && SlugWords(people)
    ensures Extract(Key(dir, date, words, people, ext))
         == Meeting(Join(' ', CapitalisedAll(words)), Some(date), CapitalisedAll(people))
  {
    hide Key, WithoutExtension, FileName, IsName, IsDate, SlugWords, Slug, Print, Join, MatchAt;
    var t := Print(date, Join('-', words), Join('-', people));
    NameOfKey(dir, date, words, people, ext);
    JoinedSlug(words);
    JoinedSlug(people);
    assert t + "" == t;
    PrintedName(date, Join('-', words), Join('-', people), "");
    NameMatches(t);
    SplitSlugWords(words);
    SplitSlugWords(people);
    TitlesOfWords(people);
  }

  /** A date is found exactly in printed names; any other key still gives a title, and never fails. */
  lemma OtherKeysDegradeExactly(key: string)
    ensures var m, t := Extract(key), WithoutExtension(FileName(key));
      && (m.date.Some? <==> IsName(t))
      && (m.date.None? ==> m.title != "" && m.participants == [])
      && (m.date.Some? ==> IsDate(m.date.value) && m.participants != [])
  {
    hide MatchAt;
    var t := WithoutExtension(FileName(key));
    NameMatches(t);
    if IsName(t) {
      var date, title, people, end := NameIsPrinted(t);
      PrintedName(date, title, people, end);
    }
  }
}
